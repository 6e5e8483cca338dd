/**
 The packer of `_focused_excerpt` in evidence_selection.py: whole packets of blocks are reserved
 while the budget lasts, then the chosen blocks are assembled in the order of the source.
 */
module Packer {
  import opened Packing

  /** Stands for omitted blocks. */
  function Marker(): string
  {
    "\n\n[\U{041F}\U{0420}\U{041E}\U{041F}\U{0423}\U{0421}\U{041A} \U{0410}\U{0411}\U{0417}\U{0410}\U{0426}\U{0415}\U{0412}]\n\n"
  }

  /** The room that a marker takes. */
  const ROOM: nat := 21

  /** What does not change while packing; `excluding` says whether the question excludes topics. */
  datatype Plan = Plan(blocks: seq<string>, budget: nat, excluding: bool, atomic: Links, guarded: Links,
                       components: seq<set<nat>>)

  ghost predicate Sound(plan: Plan)
  {
    var n := |plan.blocks|;
    && Bounded(plan.atomic, n) && Bounded(plan.guarded, n) && Disjoint(plan.components)
    && forall k | 0 <= k < |plan.components| :: plan.components[k] <= Indices(n)
  }

  type SoundPlan = plan: Plan | Sound(plan) ghost witness Plan([], 0, false, map[], map[], [])

  predicate Preferring(plan: Plan)
  {
    exists c | c in plan.components :: c != {}
  }

  /** What a block needs: its atomic group and its guards. */
  function Needs(plan: Plan): (links: Links)
    ensures forall p: nat :: p in links <==> p < |plan.blocks|
    ensures forall p | p in links :: links[p] == Linked(plan.atomic, p) + Linked(plan.guarded, p)
  {
    map p | p in Indices(|plan.blocks|) :: Linked(plan.atomic, p) + Linked(plan.guarded, p)
  }

  /** What a block needs, and the component it belongs to. */
  function Wants(plan: Plan): (links: Links)
    ensures forall p: nat :: p in links <==> p < |plan.blocks|
    ensures forall p | p in links :: links[p] == Linked(Needs(plan), p) + Touched(plan.components, {p})
  {
    map p | p in Indices(|plan.blocks|) :: Linked(Needs(plan), p) + Touched(plan.components, {p})
  }

  lemma LinksAreBounded(plan: SoundPlan)
    ensures Bounded(Needs(plan), |plan.blocks|) && Bounded(Wants(plan), |plan.blocks|)
  {
    forall p | p in Wants(plan) ensures Wants(plan)[p] <= Indices(|plan.blocks|) {
      OthersWithin(plan.components, {p}, Indices(|plan.blocks|));
    }
  }

  /** The packet that is reserved for some blocks. */
  function Expand(plan: SoundPlan, s: set<nat>): (packet: set<nat>)
    requires s <= Indices(|plan.blocks|)
    ensures s <= packet <= Indices(|plan.blocks|)
  {
    LinksAreBounded(plan);
    if Preferring(plan) then Close(Wants(plan), |plan.blocks|, s) else
    var a := s + Step(plan.atomic, s);
    var g := a + Step(plan.guarded, a);
    StepWithin(plan.atomic, |plan.blocks|, s);
    StepWithin(plan.guarded, |plan.blocks|, a);
    if plan.excluding then Close(Needs(plan), |plan.blocks|, g) else g
  }

  lemma StepWithin(links: Links, n: nat, s: set<nat>)
    requires Bounded(links, n)
    ensures Step(links, s) <= Indices(n)
  {
  }

  lemma WantsCloseNeeds(plan: Plan, s: set<nat>)
    requires Closed(Wants(plan), s) && s <= Indices(|plan.blocks|)
    ensures Closed(Needs(plan), s)
    ensures forall k | 0 <= k < |plan.components| :: Respects(s, plan.components[k])
  {
    forall p | p in s ensures Linked(Needs(plan), p) <= s {
      assert Linked(Wants(plan), p) <= s;
    }
    forall k | 0 <= k < |plan.components| ensures Respects(s, plan.components[k]) {
      if !Clear(plan.components[k], s) {
        var p :| p in plan.components[k] && p in s;
        assert Linked(Wants(plan), p) <= s;
        TouchedHolds(plan.components, p, k);
      }
    }
  }

  lemma {:induction false} TouchedHolds(components: seq<set<nat>>, p: nat, k: nat)
    requires k < |components| && p in components[k]
    ensures components[k] <= Touched(components, {p})
  {
    if k > 0 {
      TouchedHolds(components[1..], p, k - 1);
    } else {
      assert p in components[0] * {p};
    }
  }

  /** With exclusions a packet is closed; with components it holds them whole. */
  lemma ExpandIsClosed(plan: SoundPlan, s: set<nat>)
    requires s <= Indices(|plan.blocks|)
    ensures plan.excluding || Preferring(plan) ==> Closed(Needs(plan), Expand(plan, s))
    ensures Preferring(plan) ==> forall k | 0 <= k < |plan.components| :: Respects(Expand(plan, s), plan.components[k])
  {
    LinksAreBounded(plan);
    if Preferring(plan) {
      WantsCloseNeeds(plan, Expand(plan, s));
    }
  }

  lemma StepInside(some: Links, links: Links, s: set<nat>, whole: set<nat>)
    requires s <= whole && Closed(links, whole) && forall p | p in s :: Linked(some, p) <= Linked(links, p)
    ensures s + Step(some, s) <= whole
  {
    forall q | q in Step(some, s) ensures q in whole {
      var p :| p in s && q in Linked(some, p);
      assert Linked(links, p) <= whole;
    }
  }

  /** With exclusions and no components a packet is exactly the closure of what is asked for. */
  lemma ExpandIsClosure(plan: SoundPlan, s: set<nat>)
    requires s <= Indices(|plan.blocks|) && plan.excluding && !Preferring(plan)
    ensures Bounded(Needs(plan), |plan.blocks|) && Expand(plan, s) == Close(Needs(plan), |plan.blocks|, s)
  {
    LinksAreBounded(plan);
    hide *;
    var n, links := |plan.blocks|, Needs(plan);
    var whole := Close(links, n, s);
    var a := s + Step(plan.atomic, s);
    var g := a + Step(plan.guarded, a);
    ExpandExcluding(plan, s);
    forall p: nat | p < n
      ensures Linked(plan.atomic, p) <= Linked(links, p) && Linked(plan.guarded, p) <= Linked(links, p)
    {
      NeedsBoth(plan, p);
    }
    InRangeBelow(s, n);
    StepInside(plan.atomic, links, s, whole);
    InRangeBelow(a, n);
    StepInside(plan.guarded, links, a, whole);
    CloseIsLeast(links, n, g, whole);
    CloseIsLeast(links, n, s, Close(links, n, g));
  }

  lemma ExpandExcluding(plan: SoundPlan, s: set<nat>)
    requires s <= Indices(|plan.blocks|) && plan.excluding && !Preferring(plan)
    ensures var a := s + Step(plan.atomic, s);
            var g := a + Step(plan.guarded, a);
            && Bounded(Needs(plan), |plan.blocks|) && a <= Indices(|plan.blocks|) && g <= Indices(|plan.blocks|)
            && Expand(plan, s) == Close(Needs(plan), |plan.blocks|, g)
  {
    LinksAreBounded(plan);
    StepWithin(plan.atomic, |plan.blocks|, s);
    StepWithin(plan.guarded, |plan.blocks|, s + Step(plan.atomic, s));
    hide Close, Wants, Needs, Preferring, Step;
  }

  lemma NeedsBoth(plan: Plan, p: nat)
    ensures p < |plan.blocks| ==> Linked(plan.atomic, p) <= Linked(Needs(plan), p) && Linked(plan.guarded, p) <= Linked(Needs(plan), p)
  {
  }

  lemma InRangeBelow(s: set<nat>, n: nat)
    requires s <= Indices(n)
    ensures forall p | p in s :: p < n
  {
    assert forall p | p in s :: p in Indices(n);
  }

  /* ---- reserving ---- */

  datatype State = State(selected: set<nat>, size: nat, blocked: set<nat>, promoted: set<nat>,
                         unfitAtomic: set<nat>, unfitComponents: set<nat>)

  function CostOf(plan: Plan, s: set<nat>): nat
  {
    Cost(plan.blocks, ROOM, s, |plan.blocks|)
  }

  /** The components that the packet holds some of. */
  function Met(plan: Plan, packet: set<nat>): set<nat>
  {
    if Preferring(plan) then set k | 0 <= k < |plan.components| && plan.components[k] * packet != {} else {}
  }

  /** Too large for what is left of the budget. */
  predicate TooLarge(plan: Plan, st: State, packet: set<nat>)
  {
    st.size + CostOf(plan, packet - st.selected) > plan.budget
  }

  datatype Outcome = Outcome(ok: bool, state: State)

  /** The packet is taken. */
  function Taken(plan: Plan, st: State, packet: set<nat>): State
  {
    st.(selected := st.selected + packet, size := st.size + CostOf(plan, packet - st.selected),
        blocked := st.blocked - packet, promoted := st.promoted + packet * st.blocked)
  }

  /** The packet is too large: what is remembered about it. */
  function Marked(plan: Plan, st: State, packet: set<nat>): State
  {
    st.(unfitAtomic := st.unfitAtomic + (if packet * st.blocked != {} then packet - st.selected else {}),
        unfitComponents := st.unfitComponents
          + (set k | k in Met(plan, packet) && k < |plan.components| && TooLarge(plan, st, plan.components[k])))
  }

  function Reserved(plan: SoundPlan, st: State, positions: set<nat>, mandatory: bool): Outcome
    requires positions <= Indices(|plan.blocks|)
  {
    var packet := Expand(plan, positions);
    if Met(plan, packet) * st.unfitComponents != {} then Outcome(false, st)
    else if plan.excluding && packet * st.unfitAtomic != {} then Outcome(false, st)
    else if packet * st.blocked != {} && !mandatory then Outcome(false, st)
    else if TooLarge(plan, st, packet) then Outcome(false, Marked(plan, st, packet))
    else Outcome(true, Taken(plan, st, packet))
  }

  lemma ReservedCases(plan: SoundPlan, st: State, positions: set<nat>, mandatory: bool)
    requires positions <= Indices(|plan.blocks|)
    ensures var packet := Expand(plan, positions);
            Reserved(plan, st, positions, mandatory) ==
              if Met(plan, packet) * st.unfitComponents != {} || (plan.excluding && packet * st.unfitAtomic != {})
                 || (packet * st.blocked != {} && !mandatory) then Outcome(false, st)
              else if TooLarge(plan, st, packet) then Outcome(false, Marked(plan, st, packet))
              else Outcome(true, Taken(plan, st, packet))
  {
    hide Met, TooLarge, Marked, Taken, Expand;
  }

  /** What holds at all times; `excluded` are the blocks that the question excludes. */
  ghost predicate Consistent(plan: Plan, excluded: set<nat>, st: State)
  {
    && st.selected <= Indices(|plan.blocks|)
    && st.size == CostOf(plan, st.selected) && st.size <= plan.budget
    && (excluded != {} ==> plan.excluding)
    && st.blocked + st.promoted == excluded && st.promoted <= st.selected && st.blocked !! st.selected
    && st.unfitAtomic !! st.selected && (!plan.excluding ==> st.unfitAtomic == {})
    && (plan.excluding ==> Closed(Needs(plan), st.selected))
    && (Preferring(plan) ==> forall k | 0 <= k < |plan.components| :: Respects(st.selected, plan.components[k]))
    && (forall k | k in st.unfitComponents :: k < |plan.components| && TooLarge(plan, st, plan.components[k]))
  }

  lemma AddPacket(plan: Plan, st: State, packet: set<nat>)
    requires st.size == CostOf(plan, st.selected)
    ensures st.size + CostOf(plan, packet - st.selected) == CostOf(plan, st.selected + packet)
  {
    CostAdds(plan.blocks, ROOM, st.selected, packet - st.selected, |plan.blocks|);
    assert st.selected + (packet - st.selected) == st.selected + packet;
  }

  lemma StaysTooLarge(plan: Plan, st: State, later: State, packet: set<nat>)
    requires st.size == CostOf(plan, st.selected) && later.size == CostOf(plan, later.selected)
    requires st.selected <= later.selected && TooLarge(plan, st, packet)
    ensures TooLarge(plan, later, packet)
  {
    TotalGrows(plan.blocks, ROOM, packet, st.selected, later.selected);
  }

  lemma BothClosed(links: Links, a: set<nat>, b: set<nat>)
    requires Closed(links, a) && Closed(links, b)
    ensures Closed(links, a + b)
  {
    forall p | p in a + b ensures Linked(links, p) <= a + b {
      if p in a {
        assert Linked(links, p) <= a;
      } else {
        assert Linked(links, p) <= b;
      }
    }
  }

  lemma TakenKeeps(plan: Plan, excluded: set<nat>, st: State, packet: set<nat>)
    requires Consistent(plan, excluded, st) && packet <= Indices(|plan.blocks|) && !TooLarge(plan, st, packet)
    requires plan.excluding ==> Closed(Needs(plan), packet) && packet * st.unfitAtomic == {}
    requires Preferring(plan) ==> forall k | 0 <= k < |plan.components| :: Respects(packet, plan.components[k])
    ensures Consistent(plan, excluded, Taken(plan, st, packet))
  {
    hide Closed, Preferring, Needs;
    AddPacket(plan, st, packet);
    hide Cost, CostOf;
    var next := Taken(plan, st, packet);
    if plan.excluding {
      BothClosed(Needs(plan), st.selected, packet);
    }
    if Preferring(plan) {
      forall k | 0 <= k < |plan.components| ensures Respects(next.selected, plan.components[k]) {
        assert Respects(st.selected, plan.components[k]) && Respects(packet, plan.components[k]);
      }
    }
    assert next.blocked + next.promoted == excluded;
    hide Respects, Consistent;
    forall k | k in next.unfitComponents ensures k < |plan.components| && TooLarge(plan, next, plan.components[k]) {
      UnfitStays(plan, excluded, st, next, k);
    }
  }

  lemma UnfitStays(plan: Plan, excluded: set<nat>, st: State, later: State, k: nat)
    requires Consistent(plan, excluded, st) && k in st.unfitComponents
    requires later.size == CostOf(plan, later.selected) && st.selected <= later.selected
    ensures k < |plan.components| && TooLarge(plan, later, plan.components[k])
  {
    StaysTooLarge(plan, st, later, plan.components[k]);
  }

  lemma MarkedKeeps(plan: Plan, excluded: set<nat>, st: State, packet: set<nat>)
    requires Consistent(plan, excluded, st)
    ensures Consistent(plan, excluded, Marked(plan, st, packet))
  {
    hide Closed, Preferring, Needs, Respects, Cost, Met;
  }

  /** Every step keeps the packing consistent. */
  lemma ReservedKeeps(plan: SoundPlan, excluded: set<nat>, st: State, positions: set<nat>, mandatory: bool)
    requires positions <= Indices(|plan.blocks|) && Consistent(plan, excluded, st)
    ensures Consistent(plan, excluded, Reserved(plan, st, positions, mandatory).state)
  {
    hide Expand, Closed, Consistent, Taken, Marked, TooLarge, Respects, Needs, Preferring, Met;
    var packet := Expand(plan, positions);
    ExpandIsClosed(plan, positions);
    MarkedKeeps(plan, excluded, st, packet);
    if Reserved(plan, st, positions, mandatory).ok {
      TakenKeeps(plan, excluded, st, packet);
    }
  }

  lemma MetTooLarge(plan: Plan, excluded: set<nat>, st: State, packet: set<nat>)
    requires Consistent(plan, excluded, st) && Met(plan, packet) * st.unfitComponents != {}
    requires Preferring(plan) ==> forall k | 0 <= k < |plan.components| :: Respects(packet, plan.components[k])
    ensures TooLarge(plan, st, packet)
  {
    var k :| k in Met(plan, packet) * st.unfitComponents;
    assert Respects(packet, plan.components[k]) && plan.components[k] * packet != {};
    assert plan.components[k] <= packet;
    hide Closed, Needs, Respects, Preferring, Cost;
    CostGrows(plan.blocks, ROOM, plan.components[k] - st.selected, packet - st.selected, |plan.blocks|);
  }

  /** The shortcut over unfit components refuses nothing that would have fitted. */
  lemma ShortcutIsExact(plan: SoundPlan, excluded: set<nat>, st: State, positions: set<nat>, mandatory: bool)
    requires positions <= Indices(|plan.blocks|) && Consistent(plan, excluded, st)
    ensures var packet := Expand(plan, positions);
            Reserved(plan, st, positions, mandatory).ok
            <==> && (plan.excluding ==> packet * st.unfitAtomic == {})
                 && (mandatory || packet * st.blocked == {})
                 && !TooLarge(plan, st, packet)
  {
    hide Expand, Closed, Consistent, TooLarge, Respects, Needs, Preferring, Met, Taken, Marked;
    var packet := Expand(plan, positions);
    ExpandIsClosed(plan, positions);
    if Met(plan, packet) * st.unfitComponents != {} {
      MetTooLarge(plan, excluded, st, packet);
    }
  }

  /* ---- whole runs ---- */

  datatype Request = Request(positions: set<nat>, mandatory: bool)

  ghost predicate InRange(plan: Plan, requests: seq<Request>)
  {
    forall i | 0 <= i < |requests| :: requests[i].positions <= Indices(|plan.blocks|)
  }

  function Run(plan: SoundPlan, st: State, requests: seq<Request>): State
    requires InRange(plan, requests)
    decreases |requests|
  {
    if requests == [] then st
    else Run(plan, Reserved(plan, st, requests[0].positions, requests[0].mandatory).state, requests[1..])
  }

  lemma {:induction false} RunKeeps(plan: SoundPlan, excluded: set<nat>, st: State, requests: seq<Request>)
    requires InRange(plan, requests) && Consistent(plan, excluded, st)
    ensures Consistent(plan, excluded, Run(plan, st, requests))
    decreases |requests|
  {
    hide Consistent, Reserved;
    if requests != [] {
      ReservedKeeps(plan, excluded, st, requests[0].positions, requests[0].mandatory);
      RunKeeps(plan, excluded, Reserved(plan, st, requests[0].positions, requests[0].mandatory).state, requests[1..]);
    }
  }

  /** An excluded block enters only through a mandatory request whose packet holds it. */
  lemma {:induction false} EntersByMandate(plan: SoundPlan, excluded: set<nat>, st: State, requests: seq<Request>, x: nat)
    requires InRange(plan, requests) && Consistent(plan, excluded, st)
    requires x in excluded && x !in st.selected && x in Run(plan, st, requests).selected
    ensures exists i | 0 <= i < |requests| :: requests[i].mandatory && x in Expand(plan, requests[i].positions)
    decreases |requests|
  {
    hide Expand, Closed, Cost, Met;
    if requests != [] {
      var r := requests[0];
      var next := Reserved(plan, st, r.positions, r.mandatory).state;
      ReservedKeeps(plan, excluded, st, r.positions, r.mandatory);
      if x in next.selected {
        assert x in Expand(plan, r.positions) * st.blocked;
        assert requests[0].mandatory;
      } else {
        EntersByMandate(plan, excluded, next, requests[1..], x);
        var i :| 0 <= i < |requests[1..]| && requests[1..][i].mandatory && x in Expand(plan, requests[1..][i].positions);
        assert requests[i + 1] == requests[1..][i];
      }
    }
  }

  ghost predicate Refused(plan: SoundPlan, st: State, positions: set<nat>)
    requires positions <= Indices(|plan.blocks|)
  {
    !Reserved(plan, st, positions, false).ok
  }

  /** What is refused once stays refused as long as nothing mandatory is reserved. */
  lemma RefusedStays(plan: SoundPlan, excluded: set<nat>, st: State, positions: set<nat>, other: set<nat>)
    requires positions <= Indices(|plan.blocks|) && other <= Indices(|plan.blocks|) && Consistent(plan, excluded, st)
    requires Refused(plan, st, positions)
    ensures Refused(plan, Reserved(plan, st, other, false).state, positions)
  {
    var next := Reserved(plan, st, other, false).state;
    ReservedKeeps(plan, excluded, st, other, false);
    ShortcutIsExact(plan, excluded, st, positions, false);
    ShortcutIsExact(plan, excluded, next, positions, false);
    hide Expand, Closed, Cost, Met;
    if TooLarge(plan, st, Expand(plan, positions)) {
      assert st.selected <= next.selected;
      StaysTooLarge(plan, st, next, Expand(plan, positions));
    }
  }

  /* ---- the excerpt ---- */

  /** The chosen blocks in the order of the source. */
  function Chosen(s: set<nat>, i: nat, n: nat): (ordered: seq<nat>)
    requires i <= n
    ensures forall k | 0 <= k < |ordered| :: i <= ordered[k] < n
    decreases n - i
  {
    if i == n then [] else (if i in s then [i] else []) + Chosen(s, i + 1, n)
  }

  lemma {:induction false} ChosenExactly(s: set<nat>, i: nat, n: nat)
    requires i <= n
    ensures forall p :: p in Chosen(s, i, n) <==> p in s && i <= p < n
    ensures forall a, b | 0 <= a < b < |Chosen(s, i, n)| :: Chosen(s, i, n)[a] < Chosen(s, i, n)[b]
    decreases n - i
  {
    if i < n {
      ChosenExactly(s, i + 1, n);
      assert Chosen(s, i, n) == (if i in s then [i] else []) + Chosen(s, i + 1, n);
    }
  }

  function Separator(before: nat, after: nat): string
  {
    if after == before + 1 then "\n\n" else Marker()
  }

  lemma SeparatorFits(before: nat, after: nat)
    ensures |Separator(before, after)| <= ROOM == |Marker()|
  {
  }

  /** The blocks after one that is already written. */
  function Following(blocks: seq<string>, before: nat, rest: seq<nat>): string
    requires forall i | 0 <= i < |rest| :: rest[i] < |blocks|
    decreases |rest|
  {
    if rest == [] then "" else Separator(before, rest[0]) + blocks[rest[0]] + Following(blocks, rest[0], rest[1..])
  }

  function Excerpt(blocks: seq<string>, ordered: seq<nat>): string
    requires forall i | 0 <= i < |ordered| :: ordered[i] < |blocks|
  {
    if ordered == [] then "" else blocks[ordered[0]] + Following(blocks, ordered[0], ordered[1..])
  }

  lemma CostStep(blocks: seq<string>, marker: nat, s: set<nat>, i: nat)
    requires i < |blocks|
    ensures Cost(blocks, marker, s, i + 1) == Cost(blocks, marker, s, i) + if i in s then |blocks[i]| + marker else 0
  {
  }

  lemma ChosenStep(s: set<nat>, i: nat, n: nat)
    requires i <= n
    ensures Chosen(s, i, n) ==
              if i == n then [] else if i in s then [i] + Chosen(s, i + 1, n) else Chosen(s, i + 1, n)
  {
  }

  lemma WriteStep(blocks: seq<string>, before: nat, i: nat, rest: seq<nat>)
    requires i < |blocks| && forall k | 0 <= k < |rest| :: rest[k] < |blocks|
    ensures Following(blocks, before, []) == ""
    ensures Following(blocks, before, [i] + rest) == Separator(before, i) + blocks[i] + Following(blocks, i, rest)
    ensures Excerpt(blocks, [i] + rest) == blocks[i] + Following(blocks, i, rest)
  {
    hide Separator;
    assert ([i] + rest)[1..] == rest;
  }

  lemma {:induction false} FollowingFits(blocks: seq<string>, s: set<nat>, before: nat, i: nat)
    requires i <= |blocks|
    ensures Cost(blocks, ROOM, s, i) + |Following(blocks, before, Chosen(s, i, |blocks|))|
            <= Cost(blocks, ROOM, s, |blocks|)
    decreases |blocks| - i
  {
    hide *;
    ChosenStep(s, i, |blocks|);
    if i < |blocks| {
      FollowingFits(blocks, s, before, i + 1);
      FollowingFits(blocks, s, i, i + 1);
      CostStep(blocks, ROOM, s, i);
      SeparatorFits(before, i);
      WriteStep(blocks, before, i, Chosen(s, i + 1, |blocks|));
    } else {
      NothingFollows(blocks, before);
    }
  }

  lemma NothingFollows(blocks: seq<string>, before: nat)
    ensures Following(blocks, before, []) == ""
  {
  }

  lemma {:induction false} ExcerptCosts(blocks: seq<string>, s: set<nat>, i: nat)
    requires i <= |blocks|
    ensures var ordered := Chosen(s, i, |blocks|);
            ordered != [] ==> Cost(blocks, ROOM, s, i) + |Excerpt(blocks, ordered)| + ROOM
                              <= Cost(blocks, ROOM, s, |blocks|)
    decreases |blocks| - i
  {
    hide *;
    ChosenStep(s, i, |blocks|);
    if i < |blocks| {
      ExcerptCosts(blocks, s, i + 1);
      FollowingFits(blocks, s, i, i + 1);
      CostStep(blocks, ROOM, s, i);
      WriteStep(blocks, 0, i, Chosen(s, i + 1, |blocks|));
    }
  }

  /** The assembled excerpt leaves room for one more marker within the budget. */
  lemma ExcerptFits(plan: Plan, excluded: set<nat>, st: State)
    requires Consistent(plan, excluded, st)
    ensures var excerpt := Excerpt(plan.blocks, Chosen(st.selected, 0, |plan.blocks|));
            |excerpt| <= plan.budget && (excerpt != "" ==> |excerpt| + ROOM <= plan.budget)
  {
    hide Closed, Respects;
    ExcerptCosts(plan.blocks, st.selected, 0);
  }

  /* ---- the last phase ---- */

  /** A place is offered if it is a block that is neither chosen nor a table header. */
  function Offered(plan: SoundPlan, st: State, headers: set<nat>, place: int): State
  {
    if place < 0 || place >= |plan.blocks| || place in st.selected || place in headers then st
    else
      var positions: set<nat> := {place};
      Reserved(plan, st, positions, false).state
  }

  function OfferAll(plan: SoundPlan, st: State, headers: set<nat>, places: seq<int>): State
    decreases |places|
  {
    if places == [] then st else OfferAll(plan, Offered(plan, st, headers, places[0]), headers, places[1..])
  }

  /** Each block, the one before it and the two after it, in the order of relevance. */
  function Places(order: seq<nat>): seq<int>
  {
    if order == [] then [] else
    var n: int := order[0];
    [n, n - 1, n + 1, n + 2] + Places(order[1..])
  }

  lemma PlacesStep(order: seq<nat>, k: nat)
    requires k < |order|
    ensures var n: int := order[k]; Places(order[k..]) == [n, n - 1, n + 1, n + 2] + Places(order[k + 1..])
  {
    assert order[k..][1..] == order[k + 1..];
  }

  lemma OfferStep(plan: SoundPlan, st: State, headers: set<nat>, places: seq<int>, j: nat, rest: seq<int>)
    requires j < |places|
    ensures OfferAll(plan, st, headers, places[j..] + rest)
         == OfferAll(plan, Offered(plan, st, headers, places[j]), headers, places[j + 1..] + rest)
  {
    hide Offered;
    assert (places[j..] + rest)[1..] == places[j + 1..] + rest;
  }

  /* ---- the packer ---- */

  class Packer {
    var plan: SoundPlan
    var selected: set<nat>
    var size: nat
    var blocked: set<nat>
    var promoted: set<nat>
    var unfitAtomic: set<nat>
    var unfitComponents: set<nat>
    ghost const excluded: set<nat>

    function Current(): State
      reads this
    {
      State(selected, size, blocked, promoted, unfitAtomic, unfitComponents)
    }

    ghost predicate Valid()
      reads this
    {
      Consistent(plan, excluded, Current())
    }

    constructor (blocks: seq<string>, budget: nat, excluding: bool, atomic: Links, guarded: Links,
                 packets: seq<set<nat>>, blocked: set<nat>)
      requires Bounded(atomic, |blocks|) && Bounded(guarded, |blocks|)
      requires forall i | 0 <= i < |packets| :: packets[i] <= Indices(|blocks|)
      requires blocked != {} ==> excluding
      ensures Valid() && excluded == blocked && Current() == State({}, 0, blocked, {}, {}, {})
      ensures plan == Plan(blocks, budget, excluding, atomic, guarded, plan.components)
      ensures Components(plan.components, packets)
    {
      var components := MergePackets(packets);
      UnionWithin(packets, Indices(|blocks|));
      this.plan := Plan(blocks, budget, excluding, atomic, guarded, components);
      this.selected, this.size, this.blocked, this.promoted := {}, 0, blocked, {};
      this.unfitAtomic, this.unfitComponents := {}, {};
      this.excluded := blocked;
      CostOfNothing(blocks, ROOM, |blocks|);
    }

    /** Reserve a packet whole, or not at all. */
    method Reserve(positions: set<nat>, mandatory: bool) returns (ok: bool)
      requires Valid() && positions <= Indices(|plan.blocks|)
      modifies `selected, `size, `blocked, `promoted, `unfitAtomic, `unfitComponents
      ensures Valid()
      ensures Outcome(ok, Current()) == Reserved(plan, old(Current()), positions, mandatory)
    {
      ghost var before := Current();
      hide Consistent, Cost, Expand, Preferring, Reserved, Met;
      ReservedKeeps(plan, excluded, before, positions, mandatory);
      ReservedCases(plan, before, positions, mandatory);
      var packet := Packet(positions);
      var conflicts := packet * blocked;
      if Met(plan, packet) * unfitComponents != {} || (plan.excluding && packet * unfitAtomic != {})
         || (conflicts != {} && !mandatory) {
        return false;
      }
      var added := packet - selected;
      var cost := CostOf(plan, added);
      if size + cost > plan.budget {
        var unfit := set k | k in Met(plan, packet) && k < |plan.components|
                             && size + CostOf(plan, plan.components[k] - selected) > plan.budget;
        if conflicts != {} {
          unfitAtomic := unfitAtomic + added;
        }
        unfitComponents := unfitComponents + unfit;
        assert Current() == Marked(plan, before, packet);
        return false;
      }
      promoted := promoted + conflicts;
      blocked := blocked - conflicts;
      selected := selected + added;
      size := size + cost;
      assert Current() == Taken(plan, before, packet);
      return true;
    }

    /** Everything that must come along with the positions. */
    method Packet(positions: set<nat>) returns (packet: set<nat>)
      requires positions <= Indices(|plan.blocks|)
      ensures packet == Expand(plan, positions)
    {
      hide Closed, Needs, Wants, Close, Step;
      LinksAreBounded(plan);
      if Preferring(plan) {
        packet := NativeClosure(Wants(plan), |plan.blocks|, positions);
        ExpandIsClosed(plan, positions);
        CloseOfClosed(Needs(plan), |plan.blocks|, packet);
      } else {
        var grouped := positions + Step(plan.atomic, positions);
        packet := grouped + Step(plan.guarded, grouped);
        StepWithin(plan.atomic, |plan.blocks|, positions);
        StepWithin(plan.guarded, |plan.blocks|, grouped);
      }
      if plan.excluding {
        packet := NativeClosure(Needs(plan), |plan.blocks|, packet);
      }
    }

    /** Offer one place, if it is a block that is neither chosen nor a table header. */
    method Offer(position: int, headers: set<nat>) returns (ghost requests: seq<Request>)
      requires Valid()
      modifies `selected, `size, `blocked, `promoted, `unfitAtomic, `unfitComponents
      ensures Valid() && InRange(plan, requests) && Optional(requests) && Current() == Run(plan, old(Current()), requests)
      ensures Current() == Offered(plan, old(Current()), headers, position)
      ensures 0 <= position < |plan.blocks| && position !in headers ==> Settled(plan, Current(), position)
      ensures forall p: nat | p < |plan.blocks| && Settled(plan, old(Current()), p) :: Settled(plan, Current(), p)
    {
      hide Consistent, Reserved;
      requests := [];
      if position < 0 || position >= |plan.blocks| || position in selected || position in headers {
        return;
      }
      ghost var before, at := Current(), position as nat;
      var ok := Reserve({position}, false);
      requests := [Request({at}, false)];
      RunOnce(plan, before, {at});
      SettledAfter(plan, excluded, before, at);
      forall p: nat | p < |plan.blocks| && Settled(plan, before, p) ensures Settled(plan, Current(), p) {
        SettledStays(plan, excluded, before, p, {at});
      }
    }

    /**
     The last phase: in the order of relevance each block, the one before it and the two after it are
     offered.  Afterwards nothing that is left out would fit.
     */
    method Fill(order: seq<nat>, headers: set<nat>) returns (ghost requests: seq<Request>)
      requires Valid() && forall p: nat :: p in order <==> p < |plan.blocks|
      modifies `selected, `size, `blocked, `promoted, `unfitAtomic, `unfitComponents
      ensures Valid() && InRange(plan, requests) && Optional(requests) && Current() == Run(plan, old(Current()), requests)
      ensures Current() == OfferAll(plan, old(Current()), headers, Places(order))
      ensures forall p: nat | p < |plan.blocks| && p !in headers :: Settled(plan, Current(), p)
    {
      requests := [];
      hide Consistent, Settled, Run, Optional, OfferAll, Offered, Places;
      NoRequests(plan, Current());
      ghost var goal := OfferAll(plan, Current(), headers, Places(order));
      assert order[0..] == order;
      assert forall i | 0 <= i < |order| :: order[i] in order;
      for k := 0 to |order|
        invariant Valid() && InRange(plan, requests) && Optional(requests) && Current() == Run(plan, old(Current()), requests)
        invariant goal == OfferAll(plan, Current(), headers, Places(order[k..]))
        invariant forall i | 0 <= i < k :: order[i] < |plan.blocks| && (order[i] !in headers ==> Settled(plan, Current(), order[i]))
      {
        PlacesStep(order, k);
        var number: int := order[k];
        var places: seq<int> := [number, number - 1, number + 1, number + 2];
        assert places[0..] == places;
        for j := 0 to |places|
          invariant Valid() && InRange(plan, requests) && Optional(requests) && Current() == Run(plan, old(Current()), requests)
          invariant forall i | 0 <= i < k :: order[i] < |plan.blocks| && (order[i] !in headers ==> Settled(plan, Current(), order[i]))
          invariant goal == OfferAll(plan, Current(), headers, places[j..] + Places(order[k + 1..]))
          invariant order[k] < |plan.blocks| && (j > 0 && order[k] !in headers ==> Settled(plan, Current(), order[k]))
        {
          OfferStep(plan, Current(), headers, places, j, Places(order[k + 1..]));
          ghost var more := Offer(places[j], headers);
          RunJoins(plan, old(Current()), requests, more);
          requests := requests + more;
        }
        assert places[|places|..] + Places(order[k + 1..]) == Places(order[k + 1..]);
      }
      NothingOffered(plan, Current(), headers, order);
      forall p: nat | p < |plan.blocks| && p !in headers ensures Settled(plan, Current(), p) {
        assert p in order;
      }
    }

    method Assemble() returns (excerpt: string, ordered: seq<nat>)
      requires Valid()
      ensures ordered == Chosen(selected, 0, |plan.blocks|) && (forall p :: p in ordered <==> p in selected)
      ensures forall a, b | 0 <= a < b < |ordered| :: ordered[a] < ordered[b]
      ensures excerpt == Excerpt(plan.blocks, ordered) && |excerpt| <= plan.budget
    {
      ChosenExactly(selected, 0, |plan.blocks|);
      SelectedInRange(plan, excluded, Current());
      ExcerptFits(plan, excluded, Current());
      ordered := Chosen(selected, 0, |plan.blocks|);
      excerpt := WriteAll(plan.blocks, ordered);
    }
  }

  lemma NothingOffered(plan: SoundPlan, st: State, headers: set<nat>, order: seq<nat>)
    ensures OfferAll(plan, st, headers, Places(order[|order|..])) == st
  {
  }

  lemma SelectedInRange(plan: SoundPlan, excluded: set<nat>, st: State)
    requires Consistent(plan, excluded, st)
    ensures forall p | p in st.selected :: p < |plan.blocks|
  {
    assert forall p | p in Indices(|plan.blocks|) :: p < |plan.blocks|;
    hide Closed, Cost, Met;
  }

  method WriteAll(blocks: seq<string>, ordered: seq<nat>) returns (excerpt: string)
    requires forall k | 0 <= k < |ordered| :: ordered[k] < |blocks|
    ensures excerpt == Excerpt(blocks, ordered)
  {
    hide Separator;
    if ordered == [] {
      return "";
    }
    excerpt := blocks[ordered[0]];
    for k := 1 to |ordered|
      invariant Excerpt(blocks, ordered) == excerpt + Following(blocks, ordered[k - 1], ordered[k..])
    {
      assert ordered[k..] == [ordered[k]] + ordered[k + 1..];
      WriteStep(blocks, ordered[k - 1], ordered[k], ordered[k + 1..]);
      excerpt := excerpt + Separator(ordered[k - 1], ordered[k]) + blocks[ordered[k]];
    }
  }

  /* ---- optional requests ---- */

  ghost predicate Optional(requests: seq<Request>)
  {
    forall i | 0 <= i < |requests| :: !requests[i].mandatory
  }

  /** The block is chosen, or would be refused now. */
  ghost predicate Settled(plan: SoundPlan, st: State, p: nat)
    requires p < |plan.blocks|
  {
    p in st.selected || Refused(plan, st, {p})
  }

  lemma NoRequests(plan: SoundPlan, st: State)
    ensures InRange(plan, []) && Optional([]) && Run(plan, st, []) == st
  {
  }

  lemma RunOnce(plan: SoundPlan, st: State, positions: set<nat>)
    requires positions <= Indices(|plan.blocks|)
    ensures InRange(plan, [Request(positions, false)]) && Optional([Request(positions, false)])
    ensures Run(plan, st, [Request(positions, false)]) == Reserved(plan, st, positions, false).state
  {
    hide Reserved;
    assert Run(plan, Reserved(plan, st, positions, false).state, []) == Reserved(plan, st, positions, false).state;
  }

  lemma {:induction false} RunJoins(plan: SoundPlan, st: State, a: seq<Request>, b: seq<Request>)
    requires InRange(plan, a) && InRange(plan, b) && Optional(a) && Optional(b)
    ensures InRange(plan, a + b) && Optional(a + b) && Run(plan, st, a + b) == Run(plan, Run(plan, st, a), b)
    decreases |a|
  {
    hide Reserved;
    if a == [] {
      assert a + b == b;
    } else {
      RunJoins(plan, Reserved(plan, st, a[0].positions, a[0].mandatory).state, a[1..], b);
      assert (a + b)[1..] == a[1..] + b;
    }
  }

  lemma SettledStays(plan: SoundPlan, excluded: set<nat>, st: State, p: nat, other: set<nat>)
    requires Consistent(plan, excluded, st) && p < |plan.blocks| && other <= Indices(|plan.blocks|) && Settled(plan, st, p)
    ensures Settled(plan, Reserved(plan, st, other, false).state, p)
  {
    if p in st.selected {
      hide Expand, Met, Consistent;
    } else {
      hide Reserved, Consistent;
      RefusedStays(plan, excluded, st, {p}, other);
    }
  }

  lemma SettledAfter(plan: SoundPlan, excluded: set<nat>, st: State, p: nat)
    requires Consistent(plan, excluded, st) && p < |plan.blocks|
    ensures Settled(plan, Reserved(plan, st, {p}, false).state, p)
  {
    if Reserved(plan, st, {p}, false).ok {
      assert p in Expand(plan, {p});
      hide Expand, Met, Consistent;
    } else {
      hide Reserved, Consistent;
      RefusedStays(plan, excluded, st, {p}, {p});
    }
  }
}
