/**
 What packing a budgeted excerpt is about: dependency closures, costs, and components of packets
 that must stay together (`_focused_excerpt` of evidence_selection.py).
 */
module Packing {

  /* ---- closures ---- */

  function Indices(n: nat): (s: set<nat>)
    ensures forall i: nat :: i in s <==> i < n
  {
    if n == 0 then {} else Indices(n - 1) + {n - 1}
  }

  /** For every block the blocks it drags along. */
  type Links = map<nat, set<nat>>

  ghost predicate Bounded(links: Links, n: nat)
  {
    forall p | p in links :: links[p] <= Indices(n)
  }

  function Linked(links: Links, p: nat): set<nat>
  {
    if p in links then links[p] else {}
  }

  function Step(links: Links, s: set<nat>): set<nat>
  {
    set p, q | p in s && q in Linked(links, p) :: q
  }

  ghost predicate Closed(links: Links, s: set<nat>)
  {
    forall p | p in s :: Linked(links, p) <= s
  }

  function Close(links: Links, n: nat, s: set<nat>): (r: set<nat>)
    requires Bounded(links, n) && s <= Indices(n)
    ensures s <= r <= Indices(n) && Closed(links, r)
    decreases |Indices(n) - s|
  {
    var t := s + Step(links, s);
    if t == s then s else
    Shrinks(Indices(n), s, t);
    Close(links, n, t)
  }

  lemma Shrinks(all: set<nat>, s: set<nat>, t: set<nat>)
    requires s < t <= all
    ensures |all - t| < |all - s|
  {
    var x :| x in t && x !in s;
    assert all - t <= (all - s) - {x};
    SubsetSize(all - t, (all - s) - {x});
  }

  lemma SubsetSize(a: set<nat>, b: set<nat>)
    requires a <= b
    ensures |a| <= |b|
  {
    assert b == a + (b - a);
  }

  /** The closure is the least closed set that holds the given blocks. */
  lemma {:induction false} CloseIsLeast(links: Links, n: nat, s: set<nat>, c: set<nat>)
    requires Bounded(links, n) && s <= Indices(n) && s <= c && Closed(links, c)
    ensures Close(links, n, s) <= c
    decreases |Indices(n) - s|
  {
    var t := s + Step(links, s);
    if t != s {
      Shrinks(Indices(n), s, t);
      CloseIsLeast(links, n, t, c);
    }
  }

  /** A set is the closure if it is closed, holds the blocks, and lies in the closure. */
  lemma IsClosure(links: Links, n: nat, s: set<nat>, r: set<nat>)
    requires Bounded(links, n) && s <= Indices(n) && s <= r && Closed(links, r) && r <= Close(links, n, s)
    ensures r == Close(links, n, s)
  {
    CloseIsLeast(links, n, s, r);
  }

  lemma CloseOfClosed(links: Links, n: nat, s: set<nat>)
    requires Bounded(links, n) && s <= Indices(n) && Closed(links, s)
    ensures Close(links, n, s) == s
  {
    CloseIsLeast(links, n, s, s);
  }

  /** What the work list has done: everything not pending has its links in place. */
  ghost predicate Worked(links: Links, positions: set<nat>, pending: set<nat>)
  {
    pending <= positions && forall p | p in positions && p !in pending :: Linked(links, p) <= positions
  }

  lemma WorkOne(links: Links, positions: set<nat>, pending: set<nat>, goal: set<nat>, position: nat)
    requires Worked(links, positions, pending) && position in pending && positions <= goal && Closed(links, goal)
    ensures var members := Linked(links, position) - positions;
            && Worked(links, positions + members, pending - {position} + members)
            && positions + members <= goal
            && (members == {} ==> positions + members == positions && pending - {position} + members == pending - {position})
            && (members != {} ==> |goal - (positions + members)| < |goal - positions|)
  {
    var members := Linked(links, position) - positions;
    assert Linked(links, position) <= goal;
    if members != {} {
      Shrinks(goal, positions, positions + members);
    }
    hide Closed, Linked;
  }

  /** The work list of `native_closure`. */
  method NativeClosure(links: Links, n: nat, start: set<nat>) returns (positions: set<nat>)
    requires Bounded(links, n) && start <= Indices(n)
    ensures positions == Close(links, n, start)
  {
    hide Worked, Close, Linked, Bounded;
    positions := start;
    var pending := start;
    ghost var goal := Close(links, n, start);
    assert Worked(links, start, start) by { AllPending(links, start); }
    while pending != {}
      invariant start <= positions <= goal && Worked(links, positions, pending)
      decreases |goal - positions|, |pending|
    {
      var position :| position in pending;
      WorkOne(links, positions, pending, goal, position);
      var members := Linked(links, position) - positions;
      positions := positions + members;
      pending := pending - {position} + members;
    }
    WorkDone(links, positions);
    IsClosure(links, n, start, positions);
  }

  lemma AllPending(links: Links, s: set<nat>)
    ensures Worked(links, s, s)
  {
  }

  lemma WorkDone(links: Links, positions: set<nat>)
    requires Worked(links, positions, {})
    ensures Closed(links, positions)
  {
  }

  /* ---- costs ---- */

  /** The cost of a set of blocks: their text and room for a marker each. */
  function Cost(blocks: seq<string>, marker: nat, s: set<nat>, n: nat): nat
    requires n <= |blocks|
  {
    if n == 0 then 0
    else Cost(blocks, marker, s, n - 1) + if n - 1 in s then |blocks[n - 1]| + marker else 0
  }

  lemma {:induction false} CostAdds(blocks: seq<string>, marker: nat, s: set<nat>, t: set<nat>, n: nat)
    requires n <= |blocks| && s !! t
    ensures Cost(blocks, marker, s + t, n) == Cost(blocks, marker, s, n) + Cost(blocks, marker, t, n)
  {
    if n > 0 {
      CostAdds(blocks, marker, s, t, n - 1);
    }
  }

  lemma {:induction false} CostGrows(blocks: seq<string>, marker: nat, s: set<nat>, t: set<nat>, n: nat)
    requires n <= |blocks| && s <= t
    ensures Cost(blocks, marker, s, n) <= Cost(blocks, marker, t, n)
  {
    if n > 0 {
      CostGrows(blocks, marker, s, t, n - 1);
    }
  }

  lemma {:induction false} CostOfNothing(blocks: seq<string>, marker: nat, n: nat)
    requires n <= |blocks|
    ensures Cost(blocks, marker, {}, n) == 0
  {
    if n > 0 {
      CostOfNothing(blocks, marker, n - 1);
    }
  }

  /** What a packet would bring the selection to never falls as the selection grows. */
  lemma TotalGrows(blocks: seq<string>, marker: nat, packet: set<nat>, before: set<nat>, after: set<nat>)
    requires before <= after
    ensures var n := |blocks|;
            Cost(blocks, marker, before, n) + Cost(blocks, marker, packet - before, n)
            <= Cost(blocks, marker, after, n) + Cost(blocks, marker, packet - after, n)
  {
    var n := |blocks|;
    CostAdds(blocks, marker, before, packet - before, n);
    CostAdds(blocks, marker, after, packet - after, n);
    CostGrows(blocks, marker, before + (packet - before), after + (packet - after), n);
  }

  /* ---- components ---- */

  ghost predicate Clear(a: set<nat>, b: set<nat>)
  {
    a !! b
  }

  ghost predicate Disjoint(components: seq<set<nat>>)
  {
    forall i, j | 0 <= i < j < |components| :: Clear(components[i], components[j])
  }

  /** The border of `s` does not cross the packet. */
  ghost predicate Respects(s: set<nat>, packet: set<nat>)
  {
    packet <= s || Clear(packet, s)
  }

  ghost predicate Separates(s: set<nat>, packets: seq<set<nat>>)
  {
    forall i | 0 <= i < |packets| :: Respects(s, packets[i])
  }

  ghost predicate InOne(packet: set<nat>, components: seq<set<nat>>)
  {
    exists k | 0 <= k < |components| :: packet <= components[k]
  }

  function Union(packets: seq<set<nat>>): set<nat>
  {
    if packets == [] then {} else packets[0] + Union(packets[1..])
  }

  lemma {:induction false} UnionGrows(packets: seq<set<nat>>, packet: set<nat>)
    ensures Union(packets + [packet]) == Union(packets) + packet
  {
    if packets != [] {
      UnionGrows(packets[1..], packet);
      assert (packets + [packet])[1..] == packets[1..] + [packet];
    }
  }

  lemma {:induction false} UnionWithin(packets: seq<set<nat>>, all: set<nat>)
    requires forall i | 0 <= i < |packets| :: packets[i] <= all
    ensures Union(packets) <= all
  {
    if packets != [] {
      UnionWithin(packets[1..], all);
    }
  }

  lemma {:induction false} OthersWithin(components: seq<set<nat>>, packet: set<nat>, all: set<nat>)
    requires forall k | 0 <= k < |components| :: components[k] <= all
    ensures Touched(components, packet) <= all
    ensures forall k | 0 <= k < |Others(components, packet)| :: Others(components, packet)[k] <= all
  {
    if components != [] {
      OthersWithin(components[1..], packet, all);
    }
  }

  /**
   The components are the finest disjoint sets that hold the packets whole: no border that
   separates the packets crosses a component.
   */
  ghost predicate Components(components: seq<set<nat>>, packets: seq<set<nat>>)
  {
    && Disjoint(components)
    && (forall i | 0 <= i < |packets| :: InOne(packets[i], components))
    && (forall k | 0 <= k < |components| :: components[k] <= Union(packets))
    && (forall s: set<nat> | Separates(s, packets) :: Separates(s, components))
  }

  /** The components that the packet does not touch. */
  function Others(components: seq<set<nat>>, packet: set<nat>): seq<set<nat>>
  {
    if components == [] then [] else
    (if components[0] * packet == {} then [components[0]] else []) + Others(components[1..], packet)
  }

  /** Everything in the components that it touches. */
  function Touched(components: seq<set<nat>>, packet: set<nat>): set<nat>
  {
    if components == [] then {} else
    (if components[0] * packet == {} then {} else components[0]) + Touched(components[1..], packet)
  }

  ghost predicate AllClear(components: seq<set<nat>>, s: set<nat>)
  {
    forall i | 0 <= i < |components| :: Clear(components[i], s)
  }

  lemma NoneShared(a: set<nat>, b: set<nat>)
    requires a * b == {}
    ensures Clear(a, b)
  {
    assert forall x | x in a && x in b :: x in a * b;
  }

  lemma {:induction false} OthersAreClear(components: seq<set<nat>>, packet: set<nat>, s: set<nat>)
    ensures AllClear(Others(components, packet), packet)
    ensures AllClear(components, s) ==> AllClear(Others(components, packet), s) && Clear(Touched(components, packet), s)
  {
    if components != [] {
      OthersAreClear(components[1..], packet, s);
      if components[0] * packet == {} {
        NoneShared(components[0], packet);
      }
      assert forall i | 0 <= i < |components[1..]| :: components[1..][i] == components[i + 1];
    }
  }

  lemma {:induction false} OthersAreDisjoint(components: seq<set<nat>>, packet: set<nat>)
    requires Disjoint(components)
    ensures Disjoint(Others(components, packet)) && AllClear(Others(components, packet), Touched(components, packet))
  {
    if components != [] {
      var c, rest := components[0], components[1..];
      assert AllClear(rest, c) by {
        forall i | 0 <= i < |rest| ensures Clear(rest[i], c) {
          assert Clear(components[0], components[i + 1]);
        }
      }
      assert Disjoint(rest) by {
        forall i, j | 0 <= i < j < |rest| ensures Clear(rest[i], rest[j]) {
          assert Clear(components[i + 1], components[j + 1]);
        }
      }
      OthersAreDisjoint(rest, packet);
      OthersAreClear(rest, packet, c);
    }
  }

  lemma {:induction false} OthersKeep(components: seq<set<nat>>, packet: set<nat>, s: set<nat>, merged: set<nat>)
    requires Touched(components, packet) <= merged
    ensures InOne(s, components) ==> InOne(s, Others(components, packet) + [merged])
  {
    if InOne(s, components) {
      var k :| 0 <= k < |components| && s <= components[k];
      OthersStep(components, packet);
      var head, rest := HeadAside(components, packet), Others(components[1..], packet);
      if k > 0 {
        InOneAt(s, components[1..], k - 1);
        OthersKeep(components[1..], packet, s, merged);
      }
      hide *;
      if k > 0 {
        InOneLater(s, head, rest + [merged]);
      } else if components[0] * packet == {} {
        HeadStays(components, packet);
        InOneFirst(s, head[0], rest + [merged]);
      } else {
        HeadIsTouched(components, packet);
        InOneLast(s, head + rest, merged);
      }
      assert head + (rest + [merged]) == (head + rest) + [merged];
    }
  }

  /** The first component, if the packet does not touch it. */
  function HeadAside(components: seq<set<nat>>, packet: set<nat>): seq<set<nat>>
    requires components != []
  {
    if components[0] * packet == {} then [components[0]] else []
  }

  lemma OthersStep(components: seq<set<nat>>, packet: set<nat>)
    requires components != []
    ensures Others(components, packet) == HeadAside(components, packet) + Others(components[1..], packet)
  {
  }

  lemma HeadStays(components: seq<set<nat>>, packet: set<nat>)
    requires components != [] && components[0] * packet == {}
    ensures HeadAside(components, packet) == [components[0]]
  {
  }

  lemma HeadIsTouched(components: seq<set<nat>>, packet: set<nat>)
    requires components != [] && components[0] * packet != {}
    ensures components[0] <= Touched(components, packet)
  {
  }

  lemma InOneAt(s: set<nat>, components: seq<set<nat>>, k: nat)
    requires k < |components| && s <= components[k]
    ensures InOne(s, components)
  {
  }

  lemma InOneFirst(s: set<nat>, first: set<nat>, rest: seq<set<nat>>)
    requires s <= first
    ensures InOne(s, [first] + rest)
  {
    assert ([first] + rest)[0] == first;
  }

  lemma InOneLast(s: set<nat>, rest: seq<set<nat>>, last: set<nat>)
    requires s <= last
    ensures InOne(s, rest + [last])
  {
    assert (rest + [last])[|rest|] == last;
  }

  lemma InOneLater(s: set<nat>, first: seq<set<nat>>, rest: seq<set<nat>>)
    requires InOne(s, rest)
    ensures InOne(s, first + rest)
  {
    var k :| 0 <= k < |rest| && s <= rest[k];
    assert (first + rest)[|first| + k] == rest[k];
  }

  lemma {:induction false} OthersRespect(components: seq<set<nat>>, packet: set<nat>, s: set<nat>)
    requires Separates(s, components) && Respects(s, packet)
    ensures Separates(s, Others(components, packet)) && Respects(s, packet + Touched(components, packet))
  {
    if components != [] {
      assert Respects(s, components[0]);
      assert Separates(s, components[1..]) by {
        forall i | 0 <= i < |components[1..]| ensures Respects(s, components[1..][i]) {
          assert Respects(s, components[i + 1]);
        }
      }
      OthersRespect(components[1..], packet, s);
    }
  }

  /** Merging one more packet. */
  lemma MergeKeeps(components: seq<set<nat>>, packets: seq<set<nat>>, packet: set<nat>)
    requires Components(components, packets)
    ensures Components(Others(components, packet) + [packet + Touched(components, packet)], packets + [packet])
  {
    var merged := packet + Touched(components, packet);
    var all, more := Others(components, packet) + [merged], packets + [packet];
    OthersAreDisjoint(components, packet);
    OthersAreClear(components, packet, {});
    UnionGrows(packets, packet);
    OthersWithin(components, packet, Union(packets));
    forall i | 0 <= i < |more| ensures InOne(more[i], all) {
      if i < |packets| {
        OthersKeep(components, packet, packets[i], merged);
      } else {
        assert packet <= all[|all| - 1];
      }
    }
    forall s: set<nat> | Separates(s, more) ensures Separates(s, all) {
      assert Separates(s, packets) by {
        forall i | 0 <= i < |packets| ensures Respects(s, packets[i]) {
          assert Respects(s, more[i]);
        }
      }
      assert Respects(s, packet) by { assert Respects(s, more[|packets|]); }
      OthersRespect(components, packet, s);
    }
  }

  /** Packets merged wherever they overlap. */
  method MergePackets(packets: seq<set<nat>>) returns (components: seq<set<nat>>)
    ensures Components(components, packets)
  {
    hide Components;
    components := [];
    assert Components([], []) by { NoComponents(); }
    for k := 0 to |packets|
      invariant Components(components, packets[..k])
    {
      var packet, kept, merged := packets[k], [], packets[k];
      ghost var before := components;
      for i := 0 to |components|
        invariant Others(before, packet) == kept + Others(before[i..], packet)
        invariant packet + Touched(before, packet) == merged + Touched(before[i..], packet)
      {
        assert before[i..][0] == components[i] && before[i..][1..] == before[i + 1..];
        if components[i] * packet != {} {
          merged := merged + components[i];
        } else {
          kept := kept + [components[i]];
        }
      }
      assert before[|before|..] == [];
      assert kept == Others(before, packet) && merged == packet + Touched(before, packet);
      MergeKeeps(before, packets[..k], packet);
      assert packets[..k + 1] == packets[..k] + [packet];
      components := kept + [merged];
    }
    assert packets[..|packets|] == packets;
  }

  lemma NoComponents()
    ensures Components([], [])
  {
  }
}
