/**
 What a request to the packer brings along, what it costs, and what stands between the blocks of the
 excerpt.
 */
module PackerMeaning {
  import opened Packing
  import opened Packer

  /** The block drags the other along in its atomic group. */
  ghost predicate Groups(plan: Plan, p: nat, q: nat)
  {
    p in plan.atomic && q in plan.atomic[p]
  }

  /** The block is guarded by the other. */
  ghost predicate Guards(plan: Plan, p: nat, q: nat)
  {
    p in plan.guarded && q in plan.guarded[p]
  }

  /** With every block its group and its guards. */
  ghost predicate Complete(plan: Plan, s: set<nat>)
  {
    forall p: nat, q: nat | p in s && (Groups(plan, p, q) || Guards(plan, p, q)) :: q in s
  }

  /** With every block the whole component it belongs to. */
  ghost predicate WholeIn(plan: Plan, s: set<nat>)
  {
    forall k, p: nat, q: nat | 0 <= k < |plan.components| && p in plan.components[k] && p in s && q in plan.components[k] :: q in s
  }

  ghost predicate AnyComponent(plan: Plan)
  {
    exists k, p: nat :: 0 <= k < |plan.components| && p in plan.components[k]
  }

  lemma PreferringIs(plan: Plan)
    ensures Preferring(plan) <==> AnyComponent(plan)
  {
    if Preferring(plan) {
      var c :| c in plan.components && c != {};
      var k :| 0 <= k < |plan.components| && plan.components[k] == c;
      var p :| p in c;
    }
    if AnyComponent(plan) {
      var k, p: nat :| 0 <= k < |plan.components| && p in plan.components[k];
      assert plan.components[k] in plan.components;
    }
  }

  /**
   Without exclusions and components a packet is what is asked for, its groups, and the guards of all
   of that; nothing is followed further.
   */
  lemma PlainPacket(plan: SoundPlan, s: set<nat>, q: nat)
    requires s <= Indices(|plan.blocks|) && !plan.excluding && !AnyComponent(plan)
    ensures q in Expand(plan, s) <==>
              || q in s || (exists p: nat | p in s :: Groups(plan, p, q) || Guards(plan, p, q))
              || exists p: nat, m: nat | p in s && Groups(plan, p, m) :: Guards(plan, m, q)
  {
    PreferringIs(plan);
    hide *;
    var a := s + Step(plan.atomic, s);
    PlainExpand(plan, s);
    InStep(plan.atomic, s, q);
    InStep(plan.guarded, a, q);
    forall p: nat, m: nat ensures Groups(plan, p, m) <==> p in plan.atomic && m in plan.atomic[p]
                          ensures Guards(plan, p, m) <==> p in plan.guarded && m in plan.guarded[p]
    {
      LinkIs(plan, p, m);
    }
    forall m: nat ensures m in a <==> m in s || exists p: nat :: p in s && Groups(plan, p, m) {
      InStep(plan.atomic, s, m);
    }
  }

  lemma LinkIs(plan: Plan, p: nat, m: nat)
    ensures Groups(plan, p, m) <==> p in plan.atomic && m in plan.atomic[p]
    ensures Guards(plan, p, m) <==> p in plan.guarded && m in plan.guarded[p]
  {
  }

  lemma PlainExpand(plan: SoundPlan, s: set<nat>)
    requires s <= Indices(|plan.blocks|) && !plan.excluding && !Preferring(plan)
    ensures var a := s + Step(plan.atomic, s); Expand(plan, s) == a + Step(plan.guarded, a)
  {
    hide Close, Needs, Wants, Preferring, Step;
  }

  lemma InStep(links: Links, s: set<nat>, q: nat)
    ensures q in Step(links, s) <==> exists p: nat :: p in s && p in links && q in links[p]
  {
    if q in Step(links, s) {
      var p: nat :| p in s && q in Linked(links, p);
    }
    if p: nat :| p in s && p in links && q in links[p] {
      assert q in Linked(links, p);
    }
  }

  lemma CompleteIsClosed(plan: SoundPlan, s: set<nat>)
    requires s <= Indices(|plan.blocks|)
    ensures Closed(Needs(plan), s) <==> Complete(plan, s)
  {
    forall p | p in s ensures Linked(Needs(plan), p) <= s <==> forall q | Groups(plan, p, q) || Guards(plan, p, q) :: q in s {
      assert Linked(Needs(plan), p) == Linked(plan.atomic, p) + Linked(plan.guarded, p);
    }
    hide Needs, Linked, Groups, Guards;
  }

  lemma {:induction false} InTouched(components: seq<set<nat>>, p: nat, q: nat)
    ensures q in Touched(components, {p}) <==> exists k | 0 <= k < |components| :: p in components[k] && q in components[k]
    decreases |components|
  {
    if components != [] {
      var c, rest := components[0], components[1..];
      InTouched(rest, p, q);
      assert c * {p} == {} <==> p !in c by {
        if p in c {
          assert p in c * {p};
        }
      }
      if j :| 0 <= j < |rest| && p in rest[j] && q in rest[j] {
        assert components[j + 1] == rest[j];
      }
    }
  }

  lemma WholeIsClosed(plan: SoundPlan, s: set<nat>)
    requires s <= Indices(|plan.blocks|)
    ensures Closed(Wants(plan), s) <==> Complete(plan, s) && WholeIn(plan, s)
  {
    hide *;
    CompleteIsClosed(plan, s);
    ClosedMeans(Wants(plan), s);
    ClosedMeans(Needs(plan), s);
    TouchedMeans(plan, s);
    forall p: nat | p in s ensures Linked(Wants(plan), p) == Linked(Needs(plan), p) + Touched(plan.components, {p}) {
      WantsAre(plan, s, p);
    }
  }

  lemma ClosedMeans(links: Links, s: set<nat>)
    ensures Closed(links, s) <==> forall p: nat | p in s :: Linked(links, p) <= s
  {
  }

  lemma WantsAre(plan: SoundPlan, s: set<nat>, p: nat)
    requires s <= Indices(|plan.blocks|) && p in s
    ensures Linked(Wants(plan), p) == Linked(Needs(plan), p) + Touched(plan.components, {p})
  {
    hide Needs;
  }

  lemma TouchedMeans(plan: SoundPlan, s: set<nat>)
    ensures WholeIn(plan, s) <==> forall p: nat | p in s :: Touched(plan.components, {p}) <= s
  {
    forall p: nat, q: nat ensures q in Touched(plan.components, {p}) <==>
      exists k | 0 <= k < |plan.components| :: p in plan.components[k] && q in plan.components[k]
    {
      InTouched(plan.components, p, q);
    }
    hide Touched;
  }

  /**
   With components, whatever the question excludes, a packet is the least set that holds what is asked
   for, with every block its group and guards, and with every block its whole component.
   */
  lemma WholePacket(plan: SoundPlan, s: set<nat>, other: set<nat>)
    requires s <= Indices(|plan.blocks|) && AnyComponent(plan)
    ensures s <= Expand(plan, s) && Complete(plan, Expand(plan, s)) && WholeIn(plan, Expand(plan, s))
    ensures s <= other && other <= Indices(|plan.blocks|) && Complete(plan, other) && WholeIn(plan, other) ==>
              Expand(plan, s) <= other
  {
    PreferringIs(plan);
    LinksAreBounded(plan);
    hide *;
    WholeExpand(plan, s);
    WholeIsClosed(plan, Expand(plan, s));
    if s <= other && other <= Indices(|plan.blocks|) && Complete(plan, other) && WholeIn(plan, other) {
      WholeIsClosed(plan, other);
      CloseIsLeast(Wants(plan), |plan.blocks|, s, other);
    }
  }

  lemma WholeExpand(plan: SoundPlan, s: set<nat>)
    requires s <= Indices(|plan.blocks|) && Preferring(plan)
    ensures Bounded(Wants(plan), |plan.blocks|) && Expand(plan, s) == Close(Wants(plan), |plan.blocks|, s)
    ensures Closed(Wants(plan), Expand(plan, s))
  {
    LinksAreBounded(plan);
    hide Wants, Needs, Preferring, Closed;
  }

  /**
   With exclusions and no components it is the least such set without regard to components.
   */
  lemma GuardedPacket(plan: SoundPlan, s: set<nat>, other: set<nat>)
    requires s <= Indices(|plan.blocks|) && plan.excluding && !AnyComponent(plan)
    ensures s <= Expand(plan, s) && Complete(plan, Expand(plan, s))
    ensures s <= other && other <= Indices(|plan.blocks|) && Complete(plan, other) ==> Expand(plan, s) <= other
  {
    PreferringIs(plan);
    LinksAreBounded(plan);
    hide *;
    ExpandIsClosure(plan, s);
    CompleteIsClosed(plan, Expand(plan, s));
    if s <= other && other <= Indices(|plan.blocks|) && Complete(plan, other) {
      CompleteIsClosed(plan, other);
      CloseIsLeast(Needs(plan), |plan.blocks|, s, other);
    }
  }

  /* ---- costs ---- */

  /** A block costs its characters and 21 more, and blocks together cost what they cost apart. */
  lemma CostIs(plan: Plan, s: set<nat>, t: set<nat>, p: nat)
    requires p < |plan.blocks|
    ensures CostOf(plan, {p}) == |plan.blocks[p]| + 21
    ensures s !! t ==> CostOf(plan, s + t) == CostOf(plan, s) + CostOf(plan, t)
    ensures CostOf(plan, {}) == 0
  {
    CostOfOne(plan.blocks, ROOM, p, |plan.blocks|);
    CostOfNothing(plan.blocks, ROOM, |plan.blocks|);
    if s !! t {
      CostAdds(plan.blocks, ROOM, s, t, |plan.blocks|);
    }
  }

  lemma {:induction false} CostOfOne(blocks: seq<string>, marker: nat, p: nat, n: nat)
    requires n <= |blocks| && p < |blocks|
    ensures Cost(blocks, marker, {p}, n) == if p < n then |blocks[p]| + marker else 0
    decreases n
  {
    if n > 0 {
      CostOfOne(blocks, marker, p, n - 1);
    }
  }

  /* ---- the excerpt ---- */

  /** What stands for omitted blocks: a paragraph of its own that says so. */
  const OMITTED := "\n\n[\U{041F}\U{0420}\U{041E}\U{041F}\U{0423}\U{0421}\U{041A} \U{0410}\U{0411}\U{0417}\U{0410}\U{0426}\U{0415}\U{0412}]\n\n"

  /** Neighbours in the source follow each other after an empty line, others after the mark of omission. */
  function Between(before: nat, after: nat): string
  {
    if after == before + 1 then "\n\n" else OMITTED
  }

  lemma BetweenIs(before: nat, after: nat)
    ensures Separator(before, after) == Between(before, after)
  {
  }

  /** Every further block stands after its separator. */
  lemma ExcerptGrows(blocks: seq<string>, ordered: seq<nat>, p: nat)
    requires (forall k | 0 <= k < |ordered| :: ordered[k] < |blocks|) && p < |blocks|
    ensures Excerpt(blocks, [p]) == blocks[p]
    ensures ordered != [] ==>
              Excerpt(blocks, ordered + [p]) == Excerpt(blocks, ordered) + Between(ordered[|ordered| - 1], p) + blocks[p]
  {
    hide *;
    if ordered != [] {
      var first, rest := ordered[0], ordered[1..];
      assert ordered == [first] + rest && ordered + [p] == [first] + (rest + [p]);
      WriteStep(blocks, first, first, rest);
      WriteStep(blocks, first, first, rest + [p]);
      FollowingGrows(blocks, first, rest, p);
      var last := ordered[|ordered| - 1];
      Associate(blocks[first], Following(blocks, first, rest), Between(last, p), blocks[p]);
    }
    assert [p] == [p] + [];
    WriteStep(blocks, p, p, []);
    assert blocks[p] + "" == blocks[p];
  }

  lemma Associate(a: string, b: string, c: string, d: string)
    ensures a + (b + c + d) == a + b + c + d
  {
  }

  lemma {:induction false} FollowingGrows(blocks: seq<string>, before: nat, rest: seq<nat>, p: nat)
    requires (forall k | 0 <= k < |rest| :: rest[k] < |blocks|) && p < |blocks|
    ensures var last := if rest == [] then before else rest[|rest| - 1];
            Following(blocks, before, rest + [p]) == Following(blocks, before, rest) + Between(last, p) + blocks[p]
    decreases |rest|
  {
    hide *;
    if rest == [] {
      assert rest + [p] == [p] + [];
      WriteStep(blocks, before, p, []);
      WriteStep(blocks, p, p, []);
      BetweenIs(before, p);
      Associate("", Between(before, p), blocks[p], "");
    } else {
      var next, more := rest[0], rest[1..];
      assert rest == [next] + more && rest + [p] == [next] + (more + [p]);
      WriteStep(blocks, before, next, more);
      WriteStep(blocks, before, next, more + [p]);
      FollowingGrows(blocks, next, more, p);
      Associate(Separator(before, next) + blocks[next], Following(blocks, next, more), Between(rest[|rest| - 1], p), blocks[p]);
    }
  }
}
