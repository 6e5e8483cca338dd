/**
 A fair, bounded share of a candidate pool for the original query and its paraphrases
 (`order_by_query_frontiers` of candidate_admission.py).
 */
module QueryFrontiers {
  import opened Basics

  ghost predicate Distinct(s: seq<nat>)
  {
    forall i, j | 0 <= i < j < |s| :: s[i] != s[j]
  }

  /* ---- one queue out of several ranked lists ---- */

  ghost predicate AtDepth(channels: seq<seq<nat>>, x: nat, depth: nat)
  {
    exists c | 0 <= c < |channels| :: depth < |channels[c]| && channels[c][depth] == x
  }

  /** No list is longer. */
  ghost predicate NoLonger(channels: seq<seq<nat>>, depth: nat)
  {
    forall c | 0 <= c < |channels| :: |channels[c]| <= depth
  }

  /** Records in the order of their best depth, each once. */
  ghost predicate ByDepth(channels: seq<seq<nat>>, offered: seq<nat>)
  {
    && Distinct(offered)
    && (forall x: nat :: x in offered <==> exists depth: nat :: AtDepth(channels, x, depth))
    && forall i, j | 0 <= i < j < |offered| :: NoDeeper(channels, offered[i], offered[j])
  }

  /** Some list has `x` at a depth before which no list has `y`. */
  ghost predicate NoDeeper(channels: seq<seq<nat>>, x: nat, y: nat)
  {
    exists depth: nat :: AtDepth(channels, x, depth) && forall e: nat | e < depth :: !AtDepth(channels, y, e)
  }

  /** What has been offered after `depth` levels and `c` lists of the next. */
  ghost predicate Offered(channels: seq<seq<nat>>, offered: seq<nat>, depths: seq<nat>, depth: nat, c: nat)
    requires c <= |channels|
  {
    && |depths| == |offered| && Distinct(offered)
    && (forall i, j | 0 <= i < j < |depths| :: depths[i] <= depths[j])
    && (forall i | 0 <= i < |offered| ::
          depths[i] <= depth && AtDepth(channels, offered[i], depths[i])
          && forall e: nat | e < depths[i] :: !AtDepth(channels, offered[i], e))
    && (forall x, e: nat | e < depth && AtDepth(channels, x, e) :: x in offered)
    && (forall k | 0 <= k < c && depth < |channels[k]| :: channels[k][depth] in offered)
  }

  lemma OfferNext(channels: seq<seq<nat>>, offered: seq<nat>, depths: seq<nat>, depth: nat, c: nat)
    requires c < |channels| && Offered(channels, offered, depths, depth, c)
    ensures if depth < |channels[c]| && channels[c][depth] !in offered
            then Offered(channels, offered + [channels[c][depth]], depths + [depth], depth, c + 1)
            else Offered(channels, offered, depths, depth, c + 1)
  {
    if depth < |channels[c]| && channels[c][depth] !in offered {
      var x := channels[c][depth];
      assert AtDepth(channels, x, depth);
      hide AtDepth;
    }
  }

  lemma OfferDeeper(channels: seq<seq<nat>>, offered: seq<nat>, depths: seq<nat>, depth: nat)
    requires Offered(channels, offered, depths, depth, |channels|)
    ensures Offered(channels, offered, depths, depth + 1, 0)
  {
    forall x, e: nat | e < depth + 1 && AtDepth(channels, x, e) ensures x in offered {
      if e == depth {
        var k :| 0 <= k < |channels| && e < |channels[k]| && channels[k][e] == x;
      }
    }
  }

  lemma AllOffered(channels: seq<seq<nat>>, offered: seq<nat>, depths: seq<nat>, depth: nat)
    requires Offered(channels, offered, depths, depth, 0) && NoLonger(channels, depth)
    ensures ByDepth(channels, offered)
  {
    forall x: nat ensures x in offered <==> exists e: nat :: AtDepth(channels, x, e) {
      if x in offered {
        var i :| 0 <= i < |offered| && offered[i] == x;
        assert AtDepth(channels, x, depths[i]);
      }
      if e: nat :| AtDepth(channels, x, e) {
        var k :| 0 <= k < |channels| && e < |channels[k]| && channels[k][e] == x;
      }
    }
    forall i, j | 0 <= i < j < |offered| ensures NoDeeper(channels, offered[i], offered[j]) {
      assert AtDepth(channels, offered[i], depths[i]);
    }
  }

  lemma NothingOffered(channels: seq<seq<nat>>)
    ensures Offered(channels, [], [], 0, 0)
  {
  }

  lemma NoneIsLonger(channels: seq<seq<nat>>, longest: nat)
    requires forall k | 0 <= k < |channels| :: |channels[k]| <= longest
    ensures NoLonger(channels, longest)
  {
  }

  method Interleave(channels: seq<seq<nat>>) returns (offered: seq<nat>)
    ensures ByDepth(channels, offered)
  {
    hide *;
    var longest: nat := 0;
    for c := 0 to |channels|
      invariant forall k | 0 <= k < c :: |channels[k]| <= longest
    {
      longest := if |channels[c]| > longest then |channels[c]| else longest;
    }
    offered := [];
    ghost var depths: seq<nat> := [];
    NothingOffered(channels);
    NoneIsLonger(channels, longest);
    for depth := 0 to longest
      invariant Offered(channels, offered, depths, depth, 0)
    {
      for c := 0 to |channels|
        invariant Offered(channels, offered, depths, depth, c)
      {
        OfferNext(channels, offered, depths, depth, c);
        if depth < |channels[c]| && channels[c][depth] !in offered {
          offered := offered + [channels[c][depth]];
          depths := depths + [depth];
        }
      }
      OfferDeeper(channels, offered, depths, depth);
    }
    AllOffered(channels, offered, depths, longest);
  }

  /* ---- the schedule ---- */

  /** The sizes of the records, the limits, and what each queue was offered. */
  datatype Plan = Plan(costs: seq<nat>, budget: nat, slots: nat, raw: Option<seq<nat>>, others: seq<seq<nat>>)

  ghost predicate Valid(plan: Plan)
  {
    && (plan.raw.Some? ==> forall x | x in plan.raw.value :: x < |plan.costs|)
    && forall k, x | 0 <= k < |plan.others| && x in plan.others[k] :: x < |plan.costs|
  }

  /** What is left of the queues, what was picked, and how much from where. */
  datatype State = State(raw: seq<nat>, others: seq<seq<nat>>, selected: seq<nat>, used: nat, rawPicks: nat, picks: seq<nat>)

  function CostOf(costs: seq<nat>, selected: seq<nat>): nat
    requires forall i | 0 <= i < |selected| :: selected[i] < |costs|
  {
    if selected == [] then 0 else CostOf(costs, selected[..|selected| - 1]) + costs[selected[|selected| - 1]]
  }

  function Sum(s: seq<nat>): nat
  {
    if s == [] then 0 else s[0] + Sum(s[1..])
  }

  lemma {:induction false} SumGrows(s: seq<nat>, k: nat)
    requires k < |s|
    ensures Sum(s[k := s[k] + 1]) == Sum(s) + 1
  {
    if k > 0 {
      SumGrows(s[1..], k - 1);
      assert s[k := s[k] + 1][1..] == s[1..][k - 1 := s[k] + 1];
    }
  }

  predicate Fits(plan: Plan, selected: seq<nat>, used: nat, x: nat)
    requires x < |plan.costs|
  {
    x !in selected && plan.costs[x] + used <= plan.budget
  }

  /** The queue after its turn; what was passed over is picked already or does not fit. */
  function Turn(plan: Plan, queue: seq<nat>, selected: seq<nat>, used: nat): (r: (Option<nat>, seq<nat>))
    requires forall x | x in queue :: x < |plan.costs|
    ensures r.0.Some? ==> r.0.value in queue && Fits(plan, selected, used, r.0.value)
    ensures r.0.None? ==> r.1 == []
    ensures forall x | x in queue :: x in r.1 || r.0 == Some(x) || !Fits(plan, selected, used, x)
    ensures forall x | x in r.1 :: x in queue
  {
    if queue == [] then (None, []) else
    assert forall x | x in queue :: x == queue[0] || x in queue[1..];
    assert queue[0] in queue && forall x | x in queue[1..] :: x in queue;
    if Fits(plan, selected, used, queue[0]) then (Some(queue[0]), queue[1..])
    else Turn(plan, queue[1..], selected, used)
  }

  /** A picked or useless record, or one still in the queue. */
  ghost predicate Accounted(plan: Plan, offered: seq<nat>, queue: seq<nat>, selected: seq<nat>, used: nat)
    requires forall x | x in offered :: x < |plan.costs|
  {
    && (forall x | x in queue :: x in offered)
    && forall x | x in offered :: x in queue || !Fits(plan, selected, used, x)
  }

  ghost predicate Selection(plan: Plan, s: State)
  {
    && Distinct(s.selected) && (forall i | 0 <= i < |s.selected| :: s.selected[i] < |plan.costs|)
    && s.used == CostOf(plan.costs, s.selected) && s.used <= plan.budget && |s.selected| <= plan.slots
    && |s.selected| == s.rawPicks + Sum(s.picks)
  }

  ghost predicate Queues(plan: Plan, s: State)
    requires Valid(plan)
  {
    && |s.others| == |s.picks| == |plan.others|
    && (plan.raw.Some? ==> Accounted(plan, plan.raw.value, s.raw, s.selected, s.used))
    && (forall k | 0 <= k < |s.others| :: Accounted(plan, plan.others[k], s.others[k], s.selected, s.used))
  }

  /** While the original query has records left it has at least as many picks as the paraphrases together. */
  ghost predicate RawFair(plan: Plan, s: State, lead: nat)
  {
    plan.raw.Some? ==> s.raw == [] || s.rawPicks >= Sum(s.picks) + lead
  }

  /** In the middle of a cycle the paraphrases before `k` have had one more turn. */
  ghost predicate InCycle(s: State, cycle: nat, k: nat)
    requires |s.others| == |s.picks|
  {
    forall i | 0 <= i < |s.others| :: s.others[i] == [] || s.picks[i] == cycle + if i < k then 1 else 0
  }

  /** Paraphrases with records left differ by at most one pick. */
  ghost predicate OthersFair(s: State)
    requires |s.others| == |s.picks|
  {
    forall i, j | 0 <= i < |s.others| && 0 <= j < |s.others| && s.others[i] != [] && s.others[j] != [] ::
      s.picks[i] <= s.picks[j] + 1
  }

  function Pick(plan: Plan, s: State, x: nat): State
    requires x < |plan.costs|
  {
    s.(selected := s.selected + [x], used := s.used + plan.costs[x])
  }

  function RawTurn(plan: Plan, s: State): State
    requires forall x | x in s.raw :: x < |plan.costs|
  {
    var r := Turn(plan, s.raw, s.selected, s.used);
    var next := s.(raw := r.1);
    if r.0.None? then next else Pick(plan, next, r.0.value).(rawPicks := s.rawPicks + 1)
  }

  function OtherTurn(plan: Plan, s: State, k: nat): State
    requires k < |s.others| == |s.picks| && forall x | x in s.others[k] :: x < |plan.costs|
  {
    var r := Turn(plan, s.others[k], s.selected, s.used);
    var next := s.(others := s.others[k := r.1]);
    if r.0.None? then next else Pick(plan, next, r.0.value).(picks := s.picks[k := s.picks[k] + 1])
  }

  lemma PickKeeps(plan: Plan, s: State, x: nat)
    requires Distinct(s.selected) && (forall i | 0 <= i < |s.selected| :: s.selected[i] < |plan.costs|)
    requires s.used == CostOf(plan.costs, s.selected) && x < |plan.costs| && Fits(plan, s.selected, s.used, x)
    ensures var next := Pick(plan, s, x);
            && Distinct(next.selected) && (forall i | 0 <= i < |next.selected| :: next.selected[i] < |plan.costs|)
            && next.used == CostOf(plan.costs, next.selected) && next.used <= plan.budget
  {
    var next := Pick(plan, s, x);
    assert next.selected[..|next.selected| - 1] == s.selected;
    forall i | 0 <= i < |s.selected| ensures s.selected[i] != x {
      assert s.selected[i] in s.selected;
    }
  }

  /** What another queue's pick does to a queue: nothing new fits. */
  lemma AccountedStays(plan: Plan, offered: seq<nat>, queue: seq<nat>, s: State, x: nat)
    requires (forall y | y in offered :: y < |plan.costs|) && x < |plan.costs|
    requires Accounted(plan, offered, queue, s.selected, s.used)
    ensures Accounted(plan, offered, queue, s.selected + [x], s.used + plan.costs[x])
  {
  }

  lemma AccountedTurn(plan: Plan, offered: seq<nat>, queue: seq<nat>, s: State)
    requires (forall y | y in offered :: y < |plan.costs|) && (forall y | y in queue :: y < |plan.costs|)
    requires Accounted(plan, offered, queue, s.selected, s.used)
    ensures var r := Turn(plan, queue, s.selected, s.used);
            if r.0.None? then Accounted(plan, offered, r.1, s.selected, s.used)
            else Accounted(plan, offered, r.1, s.selected + [r.0.value], s.used + plan.costs[r.0.value])
  {
  }

  lemma RawTurnKeeps(plan: Plan, s: State)
    requires Valid(plan) && plan.raw.Some? && Selection(plan, s) && Queues(plan, s) && |s.selected| < plan.slots
    requires forall x | x in s.raw :: x < |plan.costs|
    ensures var next := RawTurn(plan, s);
            Selection(plan, next) && Queues(plan, next) && next.others == s.others && next.picks == s.picks
            && (RawFair(plan, s, 0) ==> RawFair(plan, next, 1))
            && (next.selected == s.selected ==> next.raw == [])
            && (next.selected == s.selected || |next.selected| == |s.selected| + 1)
  {
    RawTurnSelects(plan, s);
    RawTurnQueues(plan, s);
    hide Turn, Fits, Distinct, CostOf, Accounted, Sum, Valid, Queues, Selection;
  }

  lemma RawTurnSelects(plan: Plan, s: State)
    requires Selection(plan, s) && |s.selected| < plan.slots && forall x | x in s.raw :: x < |plan.costs|
    ensures Selection(plan, RawTurn(plan, s))
  {
    var r := Turn(plan, s.raw, s.selected, s.used);
    hide Turn, Fits, Distinct, CostOf, Sum;
    if r.0.Some? {
      PickKeeps(plan, s.(raw := r.1), r.0.value);
    }
  }

  lemma RawTurnQueues(plan: Plan, s: State)
    requires Valid(plan) && plan.raw.Some? && Queues(plan, s) && forall x | x in s.raw :: x < |plan.costs|
    ensures Queues(plan, RawTurn(plan, s))
  {
    var r := Turn(plan, s.raw, s.selected, s.used);
    AccountedTurn(plan, plan.raw.value, s.raw, s);
    hide Turn, Fits, Accounted;
    if r.0.Some? {
      forall k | 0 <= k < |s.others| {
        AccountedStays(plan, plan.others[k], s.others[k], s, r.0.value);
      }
    }
  }

  lemma OtherTurnSelects(plan: Plan, s: State, k: nat)
    requires Selection(plan, s) && |s.selected| < plan.slots && k < |s.others| == |s.picks|
    requires forall x | x in s.others[k] :: x < |plan.costs|
    ensures Selection(plan, OtherTurn(plan, s, k))
    ensures Sum(OtherTurn(plan, s, k).picks) <= Sum(s.picks) + 1
  {
    var r := Turn(plan, s.others[k], s.selected, s.used);
    SumGrows(s.picks, k);
    hide Turn, Fits, Distinct, CostOf;
    if r.0.Some? {
      PickKeeps(plan, s.(others := s.others[k := r.1]), r.0.value);
    }
  }

  lemma OtherTurnAccounts(plan: Plan, s: State, k: nat)
    requires Valid(plan) && Queues(plan, s) && k < |s.others| && forall x | x in s.others[k] :: x < |plan.costs|
    ensures Queues(plan, OtherTurn(plan, s, k))
  {
    var r := Turn(plan, s.others[k], s.selected, s.used);
    AccountedTurn(plan, plan.others[k], s.others[k], s);
    hide Turn, Fits, Accounted;
    if r.0.Some? {
      forall i | 0 <= i < |s.others| && i != k
        ensures Accounted(plan, plan.others[i], s.others[i], s.selected + [r.0.value], s.used + plan.costs[r.0.value])
      {
        AccountedStays(plan, plan.others[i], s.others[i], s, r.0.value);
      }
      if plan.raw.Some? {
        AccountedStays(plan, plan.raw.value, s.raw, s, r.0.value);
      }
    }
  }

  lemma OtherTurnKeeps(plan: Plan, s: State, k: nat, cycle: nat)
    requires Valid(plan) && Selection(plan, s) && Queues(plan, s) && |s.selected| < plan.slots && k < |s.others|
    requires forall x | x in s.others[k] :: x < |plan.costs|
    ensures var next := OtherTurn(plan, s, k);
            Selection(plan, next) && Queues(plan, next) && next.raw == s.raw
            && (RawFair(plan, s, 1) ==> RawFair(plan, next, 0))
            && (InCycle(s, cycle, k) ==> InCycle(next, cycle, k + 1))
            && (next.selected == s.selected ==> next.others[k] == [])
            && (next.selected == s.selected || |next.selected| == |s.selected| + 1)
            && (forall i | 0 <= i < |s.others| && i != k :: next.others[i] == s.others[i])
  {
    OtherTurnSelects(plan, s, k);
    OtherTurnAccounts(plan, s, k);
    hide Turn, Fits, Selection, Queues;
  }

  /* ---- the loop of the source ---- */

  /** Everything that was offered is picked, or would not fit any more, or is still in its queue. */
  lemma Exhausted(plan: Plan, s: State)
    requires Valid(plan) && Queues(plan, s) && (plan.raw.Some? ==> s.raw == [])
    requires forall k | 0 <= k < |s.others| :: s.others[k] == []
    ensures plan.raw.Some? ==> forall x | x in plan.raw.value :: !Fits(plan, s.selected, s.used, x)
    ensures forall k, x | 0 <= k < |plan.others| && x in plan.others[k] :: !Fits(plan, s.selected, s.used, x)
  {
    hide Fits;
    forall k, x | 0 <= k < |plan.others| && x in plan.others[k] ensures !Fits(plan, s.selected, s.used, x) {
      assert Accounted(plan, plan.others[k], s.others[k], s.selected, s.used);
    }
  }

  lemma QueuesAreInRange(plan: Plan, s: State)
    requires Valid(plan) && Queues(plan, s)
    ensures plan.raw.Some? ==> forall x | x in s.raw :: x < |plan.costs|
    ensures forall k, x | 0 <= k < |s.others| && x in s.others[k] :: x < |plan.costs|
  {
    hide Fits;
    forall k, x | 0 <= k < |s.others| && x in s.others[k] ensures x < |plan.costs| {
      assert Accounted(plan, plan.others[k], s.others[k], s.selected, s.used);
      assert x in plan.others[k];
    }
  }

  function Start(plan: Plan): State
  {
    State(if plan.raw.Some? then plan.raw.value else [], plan.others, [], 0, 0, seq(|plan.others|, _ => 0))
  }

  lemma {:induction false} SumOfNothing(s: seq<nat>)
    requires forall i | 0 <= i < |s| :: s[i] == 0
    ensures Sum(s) == 0
  {
    if s != [] {
      SumOfNothing(s[1..]);
    }
  }

  lemma StartIsFair(plan: Plan)
    requires Valid(plan)
    ensures var s := Start(plan); Selection(plan, s) && Queues(plan, s) && RawFair(plan, s, 0) && InCycle(s, 0, 0)
  {
    SumOfNothing(Start(plan).picks);
  }

  lemma CycleIsFair(s: State, cycle: nat, k: nat)
    requires |s.others| == |s.picks| && InCycle(s, cycle, k)
    ensures OthersFair(s)
    ensures k == |s.others| ==> InCycle(s, cycle + 1, 0)
  {
  }

  /** Whether any queue of the cycle can still be served. */
  ghost predicate Idle(plan: Plan, s: State, k: nat)
  {
    (plan.raw.Some? && k > 0 ==> s.raw == []) && forall i | 0 <= i < k && i < |s.others| :: s.others[i] == []
  }

  lemma RawTurnInCycle(s: State, next: State, cycle: nat, k: nat)
    requires |s.others| == |s.picks| && next.others == s.others && next.picks == s.picks && InCycle(s, cycle, k)
    ensures InCycle(next, cycle, k)
  {
  }

  lemma RawFairBefore(plan: Plan, s: State)
    ensures RawFair(plan, s, 1) ==> RawFair(plan, s, 0)
    ensures plan.raw.None? ==> RawFair(plan, s, 1)
  {
  }

  /** All records in the queues are records of the plan. */
  predicate InRange(plan: Plan, s: State)
  {
    && |s.others| == |s.picks| == |plan.others| && (forall x | x in s.raw :: x < |plan.costs|)
    && forall k | 0 <= k < |s.others| :: forall x | x in s.others[k] :: x < |plan.costs|
  }

  /** The original query's turn, if it takes part. */
  function RawServed(plan: Plan, s: State): (r: State)
    requires InRange(plan, s)
    ensures InRange(plan, r) && |s.selected| <= |r.selected|
  {
    if plan.raw.Some? then RawTurn(plan, s) else s
  }

  function OtherServed(plan: Plan, s: State, k: nat): (r: State)
    requires InRange(plan, s) && k < |plan.others|
    ensures InRange(plan, r) && |s.selected| <= |r.selected|
  {
    OtherTurn(plan, s, k)
  }

  /** The turns of a cycle from the `k`th paraphrase on, until the slots are taken. */
  function CycleOf(plan: Plan, s: State, k: nat): (r: State)
    requires InRange(plan, s) && k <= |plan.others|
    ensures InRange(plan, r) && |s.selected| <= |r.selected|
    decreases |plan.others| - k
  {
    if k == |plan.others| then s else
    var first := RawServed(plan, s);
    if |first.selected| == plan.slots then first else
    var second := OtherServed(plan, first, k);
    if |second.selected| == plan.slots then second else CycleOf(plan, second, k + 1)
  }

  /** Cycles until the slots are taken or nothing is picked any more. */
  function ScheduleOf(plan: Plan, s: State): State
    requires InRange(plan, s)
    decreases plan.slots - |s.selected|
  {
    if |s.selected| >= plan.slots then s else
    var next := CycleOf(plan, s, 0);
    if |next.selected| == |s.selected| then next else ScheduleOf(plan, next)
  }

  lemma StartInRange(plan: Plan)
    requires Valid(plan)
    ensures InRange(plan, Start(plan))
  {
  }

  /** One turn of the original query, if it takes part. */
  method ServeRaw(plan: Plan, s: State, ghost cycle: nat, k: nat) returns (next: State)
    requires Valid(plan) && Selection(plan, s) && Queues(plan, s) && |s.selected| < plan.slots
    requires RawFair(plan, s, 0) && |s.others| == |s.picks| && InCycle(s, cycle, k) && InRange(plan, s)
    ensures next == RawServed(plan, s)
    ensures Selection(plan, next) && Queues(plan, next) && next.others == s.others && next.picks == s.picks
    ensures RawFair(plan, next, 1) && RawFair(plan, next, 0) && InCycle(next, cycle, k)
    ensures next.selected == s.selected || |next.selected| == |s.selected| + 1
    ensures next.selected == s.selected && plan.raw.Some? ==> next.raw == []
    ensures plan.raw.None? ==> next == s
  {
    hide RawTurn, Selection, Queues, RawFair, InCycle;
    QueuesAreInRange(plan, s);
    next := s;
    if plan.raw.Some? {
      RawTurnKeeps(plan, s);
      next := RawTurn(plan, s);
      RawTurnInCycle(s, next, cycle, k);
    }
    RawFairBefore(plan, next);
  }

  /** One cycle of the schedule: before each paraphrase the original query has a turn. */
  method Cycle(plan: Plan, s: State, ghost cycle: nat) returns (next: State, progressed: bool)
    requires Valid(plan) && Selection(plan, s) && Queues(plan, s) && |s.selected| < plan.slots
    requires RawFair(plan, s, 0) && InCycle(s, cycle, 0) && InRange(plan, s)
    ensures InRange(plan, next) && next == CycleOf(plan, s, 0)
    ensures Selection(plan, next) && Queues(plan, next) && RawFair(plan, next, 0) && OthersFair(next)
    ensures |next.selected| < plan.slots ==> InCycle(next, cycle + 1, 0)
    ensures |s.selected| <= |next.selected| && (progressed <==> |next.selected| > |s.selected|)
    ensures !progressed ==> |next.selected| < plan.slots && Idle(plan, next, |plan.others|)
  {
    hide OtherTurn, Selection, RawFair, InCycle, OthersFair, Accounted, RawServed, InRange;
    next, progressed := s, false;
    for k := 0 to |plan.others|
      invariant Selection(plan, next) && Queues(plan, next)
      invariant RawFair(plan, next, 0) && InCycle(next, cycle, k) && |next.selected| < plan.slots
      invariant InRange(plan, next) && CycleOf(plan, s, 0) == CycleOf(plan, next, k)
      invariant |s.selected| <= |next.selected| && (progressed <==> |next.selected| > |s.selected|)
      invariant !progressed ==> Idle(plan, next, k)
    {
      var before := |next.selected|;
      next := ServeRaw(plan, next, cycle, k);
      progressed := progressed || |next.selected| > before;
      if |next.selected| == plan.slots {
        CycleIsFair(next, cycle, k);
        return;
      }
      before := |next.selected|;
      QueuesAreInRange(plan, next);
      OtherTurnKeeps(plan, next, k, cycle);
      next := OtherServed(plan, next, k);
      progressed := progressed || |next.selected| > before;
      if |next.selected| == plan.slots {
        CycleIsFair(next, cycle, k + 1);
        return;
      }
    }
    CycleIsFair(next, cycle, |plan.others|);
  }

  /** The whole schedule. */
  method Schedule(plan: Plan) returns (s: State)
    requires Valid(plan)
    ensures InRange(plan, Start(plan)) && s == ScheduleOf(plan, Start(plan))
    ensures Selection(plan, s) && Queues(plan, s) && RawFair(plan, s, 0) && OthersFair(s)
    ensures |s.selected| < plan.slots && plan.others != [] ==>
              && (plan.raw.Some? ==> forall x | x in plan.raw.value :: !Fits(plan, s.selected, s.used, x))
              && forall k, x | 0 <= k < |plan.others| && x in plan.others[k] :: !Fits(plan, s.selected, s.used, x)
  {
    StartIsFair(plan);
    StartInRange(plan);
    s := Start(plan);
    hide InRange, CycleOf, Start, Selection, RawFair, InCycle, OthersFair, Accounted, Fits;
    CycleIsFair(s, 0, 0);
    ghost var cycle: nat := 0;
    while |s.selected| < plan.slots
      invariant InRange(plan, s) && ScheduleOf(plan, Start(plan)) == ScheduleOf(plan, s)
      invariant Selection(plan, s) && Queues(plan, s) && RawFair(plan, s, 0) && OthersFair(s)
      invariant |s.selected| < plan.slots ==> InCycle(s, cycle, 0)
      decreases plan.slots - |s.selected|
    {
      var next, progressed := Cycle(plan, s, cycle);
      s := next;
      cycle := cycle + 1;
      if !progressed {
        if plan.others != [] {
          Exhausted(plan, s);
        }
        break;
      }
    }
  }

  /* ---- the result ---- */

  /** The places that were not picked, in their order. */
  function Rest(selected: seq<nat>, n: nat): seq<nat>
  {
    if n == 0 then [] else Rest(selected, n - 1) + if n - 1 in selected then [] else [n - 1]
  }

  lemma {:induction false} RestExactly(selected: seq<nat>, n: nat)
    ensures forall x: nat :: x in Rest(selected, n) <==> x < n && x !in selected
    ensures forall i, j | 0 <= i < j < |Rest(selected, n)| :: Rest(selected, n)[i] < Rest(selected, n)[j]
  {
    if n > 0 {
      RestExactly(selected, n - 1);
      var before, all := Rest(selected, n - 1), Rest(selected, n);
      assert forall i | 0 <= i < |before| :: before[i] in before;
      assert all == before + if n - 1 in selected then [] else [n - 1];
      forall x: nat ensures x in all <==> x < n && x !in selected {
        assert x in all <==> x in before || (x == n - 1 && n - 1 !in selected);
      }
    }
  }

  /** Picked records first, then the others in their old order: every record once. */
  lemma ResultIsPermutation(plan: Plan, s: State)
    requires Selection(plan, s)
    ensures var result := s.selected + Rest(s.selected, |plan.costs|);
            Distinct(result) && forall x: nat :: x in result <==> x < |plan.costs|
  {
    hide CostOf, Sum;
    var rest := Rest(s.selected, |plan.costs|);
    RestExactly(s.selected, |plan.costs|);
    var result := s.selected + rest;
    forall i, j | 0 <= i < j < |result| ensures result[i] != result[j] {
      if i < |s.selected| <= j {
        assert rest[j - |s.selected|] in rest && s.selected[i] in s.selected;
      }
    }
    forall x: nat ensures x in result <==> x < |plan.costs| {
      if x in s.selected {
        var i :| 0 <= i < |s.selected| && s.selected[i] == x;
      }
    }
  }
}
