/**
 The associative-commutative canonical form of an expression tree, and the theorem that it
 decides exactly rearrangement by associativity and commutativity of + and *.
 */
module FormulaCanonical {
  import opened FormulaSyntax
  import opened FormulaOrder

  predicate Commutative(op: Op)
  {
    op == Add || op == Mul
  }

  predicate Rooted(e: Node, op: Op)
  {
    e.App? && e.op == op
  }

  function Canonical(e: Node): (c: Node)
    ensures forall op :: Rooted(c, op) <==> Rooted(e, op)
    decreases e, 1
  {
    if !e.App? then e
    else if Commutative(e.op) then App(e.op, Sort(Collect(e.op, e)))
    else App(e.op, seq(|e.args|, i requires 0 <= i < |e.args| => Canonical(e.args[i])))
  }

  /** The canonical operands of a nest of `op`, from left to right. */
  function Collect(op: Op, e: Node): seq<Node>
    decreases e, if Rooted(e, op) then 0 else 2
  {
    if Rooted(e, op) then CollectFrom(e, 0) else [Canonical(e)]
  }

  function CollectFrom(e: Node, i: nat): seq<Node>
    requires e.App? && i <= |e.args|
    decreases e, 0, |e.args| - i
  {
    if i == |e.args| then [] else Collect(e.op, e.args[i]) + CollectFrom(e, i + 1)
  }

  lemma CollectPair(op: Op, x: Node, y: Node)
    ensures Collect(op, App(op, [x, y])) == Collect(op, x) + Collect(op, y)
  {
    var e := App(op, [x, y]);
    assert CollectFrom(e, 1) == Collect(op, y) + CollectFrom(e, 2);
    assert CollectFrom(e, 2) == [];
  }

  /* ---- rearrangement, independently of the canonical form ---- */

  ghost predicate Commutes(a: Node, b: Node)
  {
    && a.App? && Commutative(a.op) && |a.args| == 2
    && b == App(a.op, [a.args[1], a.args[0]])
  }

  ghost predicate Associates(a: Node, b: Node)
  {
    && a.App? && Commutative(a.op) && |a.args| == 2
    && Rooted(a.args[0], a.op) && |a.args[0].args| == 2
    && b == App(a.op, [a.args[0].args[0], App(a.op, [a.args[0].args[1], a.args[1]])])
  }

  /** One law applied at one place, in either direction. */
  ghost predicate Step(a: Node, b: Node)
    decreases a
  {
    || Commutes(a, b) || Associates(a, b) || Associates(b, a)
    || (&& a.App? && Rooted(b, a.op) && |a.args| == |b.args|
        && exists i :: 0 <= i < |a.args| && Step(a.args[i], b.args[i]) && b.args == a.args[i := b.args[i]])
  }

  ghost predicate Chain(p: seq<Node>)
  {
    p != [] && forall i | 0 <= i < |p| - 1 :: Step(p[i], p[i + 1])
  }

  /** `b` is reached from `a` by finitely many applications of the laws. */
  ghost predicate Rearranged(a: Node, b: Node)
  {
    exists p :: Chain(p) && p[0] == a && p[|p| - 1] == b
  }

  lemma RearrangedSame(a: Node)
    ensures Rearranged(a, a)
  {
    assert Chain([a]);
  }

  lemma RearrangedStep(a: Node, b: Node)
    requires Step(a, b)
    ensures Rearranged(a, b)
  {
    var p := [a, b];
    assert Chain(p) && p[0] == a && p[|p| - 1] == b;
  }

  lemma RearrangedThen(a: Node, b: Node, c: Node)
    requires Rearranged(a, b) && Rearranged(b, c)
    ensures Rearranged(a, c)
  {
    var p :| Chain(p) && p[0] == a && p[|p| - 1] == b;
    var q :| Chain(q) && q[0] == b && q[|q| - 1] == c;
    var r := p + q[1..];
    forall i | 0 <= i < |r| - 1 ensures Step(r[i], r[i + 1]) {
      if i < |p| - 1 {
        assert Step(p[i], p[i + 1]);
      } else {
        assert Step(q[i - |p| + 1], q[i - |p| + 2]);
      }
    }
    assert Chain(r) && r[0] == a && r[|r| - 1] == c;
  }

  lemma {:induction false} StepBack(a: Node, b: Node)
    requires Step(a, b)
    ensures Step(b, a)
    decreases a
  {
    if Commutes(a, b) {
      assert a.args == [a.args[0], a.args[1]];
      assert Commutes(b, a);
    } else if !Associates(a, b) && !Associates(b, a) {
      var i :| 0 <= i < |a.args| && Step(a.args[i], b.args[i]) && b.args == a.args[i := b.args[i]];
      StepBack(a.args[i], b.args[i]);
      assert a.args == b.args[i := a.args[i]];
    }
  }

  lemma {:induction false} RearrangedBack(a: Node, b: Node)
    requires Rearranged(a, b)
    ensures Rearranged(b, a)
  {
    var p :| Chain(p) && p[0] == a && p[|p| - 1] == b;
    var r := seq(|p|, i requires 0 <= i < |p| => p[|p| - 1 - i]);
    forall i | 0 <= i < |r| - 1 ensures Step(r[i], r[i + 1]) {
      var j := |p| - 2 - i;
      assert Step(p[j], p[j + 1]);
      StepBack(p[j], p[j + 1]);
    }
    assert Chain(r) && r[0] == b && r[|r| - 1] == a;
  }

  lemma StepInside(op: Op, args: seq<Node>, i: nat, x: Node, y: Node)
    requires i < |args| && Step(x, y)
    ensures Step(App(op, args[i := x]), App(op, args[i := y]))
  {
    var c, d := App(op, args[i := x]), App(op, args[i := y]);
    assert Step(c.args[i], d.args[i]) && d.args == c.args[i := d.args[i]];
  }

  /** Rearranging one operand rearranges the whole. */
  lemma RearrangedInside(op: Op, args: seq<Node>, i: nat, x: Node)
    requires i < |args| && Rearranged(args[i], x)
    ensures Rearranged(App(op, args), App(op, args[i := x]))
  {
    var p :| Chain(p) && p[0] == args[i] && p[|p| - 1] == x;
    var q := seq(|p|, k requires 0 <= k < |p| => App(op, args[i := p[k]]));
    forall k | 0 <= k < |q| - 1 ensures Step(q[k], q[k + 1]) {
      StepInside(op, args, i, p[k], p[k + 1]);
    }
    assert args[i := args[i]] == args;
    assert Chain(q) && q[0] == App(op, args) && q[|q| - 1] == App(op, args[i := x]);
  }

  lemma RearrangedPair(op: Op, x: Node, y: Node, u: Node, v: Node)
    requires Rearranged(x, u) && Rearranged(y, v)
    ensures Rearranged(App(op, [x, y]), App(op, [u, v]))
  {
    RearrangedInside(op, [x, y], 0, u);
    assert [x, y][0 := u] == [u, y];
    RearrangedInside(op, [u, y], 1, v);
    assert [u, y][1 := v] == [u, v];
    RearrangedThen(App(op, [x, y]), App(op, [u, y]), App(op, [u, v]));
  }

  lemma RearrangedCommute(op: Op, x: Node, y: Node)
    requires Commutative(op)
    ensures Rearranged(App(op, [x, y]), App(op, [y, x]))
  {
    assert Commutes(App(op, [x, y]), App(op, [y, x]));
    RearrangedStep(App(op, [x, y]), App(op, [y, x]));
  }

  lemma RearrangedAssociate(op: Op, x: Node, y: Node, z: Node)
    requires Commutative(op)
    ensures Rearranged(App(op, [App(op, [x, y]), z]), App(op, [x, App(op, [y, z])]))
    ensures Rearranged(App(op, [x, App(op, [y, z])]), App(op, [App(op, [x, y]), z]))
  {
    var a, b := App(op, [App(op, [x, y]), z]), App(op, [x, App(op, [y, z])]);
    assert Associates(a, b);
    RearrangedStep(a, b);
    RearrangedBack(a, b);
  }

  /** The first two operands of a nest change places. */
  lemma RearrangedExchange(op: Op, x: Node, y: Node, z: Node)
    requires Commutative(op)
    ensures Rearranged(App(op, [x, App(op, [y, z])]), App(op, [y, App(op, [x, z])]))
  {
    var a, b := App(op, [x, App(op, [y, z])]), App(op, [App(op, [x, y]), z]);
    var c, d := App(op, [App(op, [y, x]), z]), App(op, [y, App(op, [x, z])]);
    RearrangedAssociate(op, x, y, z);
    RearrangedCommute(op, x, y);
    RearrangedSame(z);
    RearrangedPair(op, App(op, [x, y]), z, App(op, [y, x]), z);
    RearrangedAssociate(op, y, x, z);
    RearrangedThen(a, b, c);
    RearrangedThen(a, c, d);
  }

  /* ---- equal canonical forms are rearrangements ---- */

  /** A list of operands as a nest leaning to the right. */
  ghost function Comb(op: Op, xs: seq<Node>): Node
    requires xs != []
  {
    if |xs| == 1 then xs[0] else App(op, [xs[0], Comb(op, xs[1..])])
  }

  ghost predicate NonEmpty(c: Node)
  {
    c.App? ==> c.args != [] && forall i | 0 <= i < |c.args| :: NonEmpty(c.args[i])
  }

  /** A canonical tree spelled with two operands at a time. */
  ghost function Spell(c: Node): Node
    requires NonEmpty(c)
    decreases c
  {
    if !c.App? then c else
    var args := seq(|c.args|, i requires 0 <= i < |c.args| => Spell(c.args[i]));
    if Commutative(c.op) then Comb(c.op, args) else App(c.op, args)
  }

  ghost predicate AllNonEmpty(cs: seq<Node>)
  {
    forall i | 0 <= i < |cs| :: NonEmpty(cs[i])
  }

  ghost function SpellAll(cs: seq<Node>): (xs: seq<Node>)
    requires AllNonEmpty(cs)
    ensures |xs| == |cs|
  {
    seq(|cs|, i requires 0 <= i < |cs| => Spell(cs[i]))
  }

  lemma SpellJoins(cs: seq<Node>, ds: seq<Node>)
    requires AllNonEmpty(cs) && AllNonEmpty(ds)
    ensures AllNonEmpty(cs + ds) && SpellAll(cs + ds) == SpellAll(cs) + SpellAll(ds)
  {
  }

  lemma SpellOne(c: Node, cs: seq<Node>)
    requires NonEmpty(c) && AllNonEmpty(cs)
    ensures AllNonEmpty([c] + cs) && SpellAll([c] + cs) == [Spell(c)] + SpellAll(cs)
  {
  }

  lemma {:induction false} CombJoins(op: Op, xs: seq<Node>, ys: seq<Node>)
    requires Commutative(op) && xs != [] && ys != []
    ensures Rearranged(App(op, [Comb(op, xs), Comb(op, ys)]), Comb(op, xs + ys))
  {
    assert (xs + ys)[0] == xs[0] && (xs + ys)[1..] == xs[1..] + ys;
    if |xs| == 1 {
      assert xs[1..] + ys == ys;
      RearrangedSame(Comb(op, xs + ys));
    } else {
      var x, tail, y := xs[0], Comb(op, xs[1..]), Comb(op, ys);
      CombJoins(op, xs[1..], ys);
      RearrangedAssociate(op, x, tail, y);
      RearrangedSame(x);
      RearrangedPair(op, x, App(op, [tail, y]), x, Comb(op, xs[1..] + ys));
      RearrangedThen(App(op, [App(op, [x, tail]), y]), App(op, [x, App(op, [tail, y])]), Comb(op, xs + ys));
    }
  }

  lemma CombHead(op: Op, x: Node, xs: seq<Node>)
    requires xs != []
    ensures Comb(op, [x] + xs) == App(op, [x, Comb(op, xs)])
  {
    assert ([x] + xs)[1..] == xs;
  }

  lemma {:induction false} InsertRearranges(op: Op, c: Node, cs: seq<Node>)
    requires Commutative(op) && NonEmpty(c) && AllNonEmpty(cs)
    ensures AllNonEmpty(Insert(c, cs))
    ensures Rearranged(Comb(op, [Spell(c)] + SpellAll(cs)), Comb(op, SpellAll(Insert(c, cs))))
  {
    SpellOne(c, cs);
    InsertUnfold(c, cs);
    if cs == [] || AtMost(c, cs[0]) {
      RearrangedSame(Comb(op, SpellAll([c] + cs)));
    } else {
      var d, tail := cs[0], cs[1..];
      assert cs == [d] + tail && NonEmpty(d) && AllNonEmpty(tail);
      hide *;
      InsertRearranges(op, c, tail);
      InsertIsSome(c, tail);
      PassHead(op, c, d, tail, Insert(c, tail));
    }
  }

  lemma InsertUnfold(c: Node, cs: seq<Node>)
    ensures Insert(c, cs) == if cs == [] || AtMost(c, cs[0]) then [c] + cs else [cs[0]] + Insert(c, cs[1..])
  {
    hide AtMost;
  }

  lemma InsertIsSome(c: Node, cs: seq<Node>)
    ensures Insert(c, cs) != []
  {
    hide AtMost;
  }

  lemma PassHead(op: Op, c: Node, d: Node, cs: seq<Node>, ds: seq<Node>)
    requires Commutative(op) && NonEmpty(c) && NonEmpty(d) && AllNonEmpty(cs) && AllNonEmpty(ds) && ds != []
    requires Rearranged(Comb(op, [Spell(c)] + SpellAll(cs)), Comb(op, SpellAll(ds)))
    ensures AllNonEmpty([d] + cs) && AllNonEmpty([d] + ds)
    ensures Rearranged(Comb(op, [Spell(c)] + SpellAll([d] + cs)), Comb(op, SpellAll([d] + ds)))
  {
    SpellOne(d, cs);
    SpellOne(d, ds);
    CombHead(op, Spell(c), SpellAll([d] + cs));
    CombHead(op, Spell(d), SpellAll(ds));
    ExchangeHead(op, Spell(c), Spell(d), SpellAll(cs), Comb(op, SpellAll(ds)));
  }

  lemma ExchangeHead(op: Op, x: Node, y: Node, zs: seq<Node>, w: Node)
    requires Commutative(op) && Rearranged(Comb(op, [x] + zs), w)
    ensures Rearranged(App(op, [x, Comb(op, [y] + zs)]), App(op, [y, w]))
  {
    RearrangedSame(y);
    if zs == [] {
      assert [x] + zs == [x] && [y] + zs == [y];
      RearrangedCommute(op, x, y);
      RearrangedPair(op, y, x, y, w);
      RearrangedThen(App(op, [x, y]), App(op, [y, x]), App(op, [y, w]));
    } else {
      var z := Comb(op, zs);
      CombHead(op, x, zs);
      CombHead(op, y, zs);
      RearrangedExchange(op, x, y, z);
      RearrangedPair(op, y, App(op, [x, z]), y, w);
      RearrangedThen(App(op, [x, App(op, [y, z])]), App(op, [y, App(op, [x, z])]), App(op, [y, w]));
    }
  }

  lemma {:induction false} SortRearranges(op: Op, cs: seq<Node>)
    requires Commutative(op) && cs != [] && AllNonEmpty(cs)
    ensures AllNonEmpty(Sort(cs))
    ensures Rearranged(Comb(op, SpellAll(cs)), Comb(op, SpellAll(Sort(cs))))
  {
    var x, tail := Spell(cs[0]), cs[1..];
    assert cs == [cs[0]] + tail;
    SpellOne(cs[0], tail);
    if tail == [] {
      assert Sort(cs) == cs;
      RearrangedSame(Comb(op, SpellAll(cs)));
    } else {
      SortRearranges(op, tail);
      var sorted := Sort(tail);
      CombHead(op, x, SpellAll(tail));
      CombHead(op, x, SpellAll(sorted));
      RearrangedSame(x);
      RearrangedPair(op, x, Comb(op, SpellAll(tail)), x, Comb(op, SpellAll(sorted)));
      InsertRearranges(op, cs[0], sorted);
      RearrangedThen(Comb(op, SpellAll(cs)), Comb(op, [x] + SpellAll(sorted)), Comb(op, SpellAll(Sort(cs))));
    }
  }

  ghost predicate Spells(e: Node)
  {
    NonEmpty(Canonical(e)) && Rearranged(e, Spell(Canonical(e)))
  }

  /** A parsed tree is a rearrangement of its canonical form spelled out. */
  lemma {:induction false} CanonicalSpells(e: Node)
    requires Parsed(e)
    ensures Spells(e)
    decreases e, 1
  {
    if !e.App? {
      RearrangedSame(e);
    } else if Commutative(e.op) {
      CollectSpells(e.op, e);
      NestSpells(e, Collect(e.op, e));
    } else {
      CanonicalSpells(e.args[0]);
      if e.op != Neg {
        CanonicalSpells(e.args[1]);
      }
      PlainSpells(e);
    }
  }

  lemma NestSpells(e: Node, cs: seq<Node>)
    requires e.App? && Commutative(e.op) && cs == Collect(e.op, e) && cs != [] && AllNonEmpty(cs)
    requires Rearranged(e, Comb(e.op, SpellAll(cs)))
    ensures Spells(e)
  {
    SortRearranges(e.op, cs);
    assert Spell(App(e.op, Sort(cs))) == Comb(e.op, SpellAll(Sort(cs)));
    RearrangedThen(e, Comb(e.op, SpellAll(cs)), Comb(e.op, SpellAll(Sort(cs))));
  }

  lemma PlainSpells(e: Node)
    requires Parsed(e) && e.App? && !Commutative(e.op)
    requires forall i | 0 <= i < |e.args| :: Spells(e.args[i])
    ensures Spells(e)
  {
    ParsedParts(e);
    hide *;
    if e.op == Neg {
      NegationSpells(e.args[0]);
    } else {
      PlainPairSpells(e.op, e.args[0], e.args[1]);
    }
  }

  lemma ParsedParts(e: Node)
    requires Parsed(e) && e.App?
    ensures if e.op == Neg then |e.args| == 1 && e == App(Neg, [e.args[0]])
            else |e.args| == 2 && e == App(e.op, [e.args[0], e.args[1]])
  {
    if e.op == Neg {
      assert e.args == [e.args[0]];
    } else {
      assert e.args == [e.args[0], e.args[1]];
    }
  }

  lemma NegationSpells(x: Node)
    requires Spells(x)
    ensures Spells(App(Neg, [x]))
  {
    var y := Spell(Canonical(x));
    RearrangedInside(Neg, [x], 0, y);
    assert [x][0 := y] == [y];
    SpellPlain(Neg, [Canonical(x)]);
    assert SpellAll([Canonical(x)]) == [y];
    assert Canonical(App(Neg, [x])) == App(Neg, [Canonical(x)]);
  }

  lemma PlainPairSpells(op: Op, x: Node, y: Node)
    requires !Commutative(op) && Spells(x) && Spells(y)
    ensures Spells(App(op, [x, y]))
  {
    var c, b := Canonical(x), Canonical(y);
    RearrangedPair(op, x, y, Spell(c), Spell(b));
    CanonicalPair(op, x, y);
    SpellPair(op, c, b);
    hide Canonical, Spell, NonEmpty, Rearranged;
  }

  lemma CanonicalPair(op: Op, x: Node, y: Node)
    requires !Commutative(op)
    ensures Canonical(App(op, [x, y])) == App(op, [Canonical(x), Canonical(y)])
  {
    assert Canonical(App(op, [x, y])).args == [Canonical(x), Canonical(y)];
  }

  lemma SpellPair(op: Op, a: Node, b: Node)
    requires !Commutative(op) && NonEmpty(a) && NonEmpty(b)
    ensures NonEmpty(App(op, [a, b])) && Spell(App(op, [a, b])) == App(op, [Spell(a), Spell(b)])
  {
    assert AllNonEmpty([a, b]);
    SpellPlain(op, [a, b]);
    hide Spell, NonEmpty;
    assert SpellAll([a, b]) == [Spell(a), Spell(b)];
  }

  lemma SpellPlain(op: Op, cs: seq<Node>)
    requires !Commutative(op) && cs != [] && AllNonEmpty(cs)
    ensures NonEmpty(App(op, cs)) && Spell(App(op, cs)) == App(op, SpellAll(cs))
  {
  }

  lemma {:induction false} CollectSpells(op: Op, e: Node)
    requires Parsed(e) && Commutative(op)
    ensures var cs := Collect(op, e);
            cs != [] && AllNonEmpty(cs) && Rearranged(e, Comb(op, SpellAll(cs)))
    decreases e, if Rooted(e, op) then 0 else 2
  {
    if Rooted(e, op) {
      var x, y := e.args[0], e.args[1];
      assert e == App(op, [x, y]);
      CollectPair(op, x, y);
      CollectSpells(op, x);
      CollectSpells(op, y);
      PairSpells(op, x, y, Collect(op, x), Collect(op, y));
    } else {
      CanonicalSpells(e);
    }
  }

  lemma PairSpells(op: Op, x: Node, y: Node, cs: seq<Node>, ds: seq<Node>)
    requires Commutative(op) && cs != [] && ds != [] && AllNonEmpty(cs) && AllNonEmpty(ds)
    requires Rearranged(x, Comb(op, SpellAll(cs))) && Rearranged(y, Comb(op, SpellAll(ds)))
    ensures AllNonEmpty(cs + ds) && Rearranged(App(op, [x, y]), Comb(op, SpellAll(cs + ds)))
  {
    SpellJoins(cs, ds);
    var u, v := Comb(op, SpellAll(cs)), Comb(op, SpellAll(ds));
    RearrangedPair(op, x, y, u, v);
    CombJoins(op, SpellAll(cs), SpellAll(ds));
    RearrangedThen(App(op, [x, y]), App(op, [u, v]), Comb(op, SpellAll(cs + ds)));
  }

  /* ---- rearrangements have equal canonical forms ---- */

  /** Equal canonical forms contribute the same operands to any nest they stand in. */
  lemma CollectsAlike(op: Op, x: Node, y: Node)
    requires Commutative(op) && Canonical(x) == Canonical(y)
    ensures multiset(Collect(op, x)) == multiset(Collect(op, y))
  {
    assert Rooted(x, op) <==> Rooted(Canonical(x), op);
    assert Rooted(y, op) <==> Rooted(Canonical(y), op);
    if Rooted(x, op) {
      SortForgetsOrder(Collect(op, x), Collect(op, y));
    }
  }

  lemma PairCollectsAlike(op: Op, x: Node, y: Node, u: Node, v: Node)
    requires Commutative(op)
    requires multiset(Collect(op, x) + Collect(op, y)) == multiset(Collect(op, u) + Collect(op, v))
    ensures Canonical(App(op, [x, y])) == Canonical(App(op, [u, v]))
  {
    CollectPair(op, x, y);
    CollectPair(op, u, v);
    SortForgetsOrder(Collect(op, x) + Collect(op, y), Collect(op, u) + Collect(op, v));
  }

  lemma AssociateKeepsCanonical(a: Node, b: Node)
    requires Associates(a, b)
    ensures Canonical(a) == Canonical(b)
  {
    var op, x, y, z := a.op, a.args[0].args[0], a.args[0].args[1], a.args[1];
    assert a.args[0] == App(op, [x, y]) && a == App(op, [App(op, [x, y]), z]);
    CollectPair(op, x, y);
    CollectPair(op, y, z);
    PairCollectsAlike(op, App(op, [x, y]), z, x, App(op, [y, z]));
  }

  lemma {:induction false} StepKeepsCanonical(a: Node, b: Node)
    requires Parsed(a) && Step(a, b)
    ensures Parsed(b) && Canonical(a) == Canonical(b)
    decreases a
  {
    if Commutes(a, b) {
      var x, y := a.args[0], a.args[1];
      assert a == App(a.op, [x, y]);
      PairCollectsAlike(a.op, x, y, y, x);
    } else if Associates(a, b) {
      ParsedAssociates(a, b);
      AssociateKeepsCanonical(a, b);
    } else if Associates(b, a) {
      ParsedAssociates(b, a);
      AssociateKeepsCanonical(b, a);
    } else {
      var i :| 0 <= i < |a.args| && Step(a.args[i], b.args[i]) && b.args == a.args[i := b.args[i]];
      StepKeepsCanonical(a.args[i], b.args[i]);
      InsideKeepsCanonical(a, b, i);
    }
  }

  lemma ParsedAssociates(a: Node, b: Node)
    requires Associates(a, b)
    ensures Parsed(a) <==> Parsed(b)
  {
    var x, y, z := a.args[0].args[0], a.args[0].args[1], a.args[1];
    assert a.args[0].args == [x, y] && a.args == [a.args[0], z];
    assert Parsed(App(a.op, [y, z])) <==> Parsed(y) && Parsed(z);
  }

  lemma InsideKeepsCanonical(a: Node, b: Node, i: nat)
    requires Parsed(a) && a.App? && i < |a.args| && Rooted(b, a.op)
    requires |b.args| == |a.args| && b.args == a.args[i := b.args[i]]
    requires Parsed(b.args[i]) && Canonical(a.args[i]) == Canonical(b.args[i])
    ensures Parsed(b) && Canonical(a) == Canonical(b)
  {
    if Commutative(a.op) {
      var x, y, u, v := a.args[0], a.args[1], b.args[0], b.args[1];
      assert a == App(a.op, [x, y]) && b == App(a.op, [u, v]);
      CollectsAlike(a.op, x, u);
      CollectsAlike(a.op, y, v);
      PairCollectsAlike(a.op, x, y, u, v);
    }
  }

  lemma {:induction false} ChainKeepsCanonical(p: seq<Node>)
    requires Chain(p) && Parsed(p[0])
    ensures Canonical(p[0]) == Canonical(p[|p| - 1])
    decreases |p|
  {
    if |p| > 1 {
      assert Step(p[0], p[1]);
      StepKeepsCanonical(p[0], p[1]);
      forall i | 0 <= i < |p[1..]| - 1 ensures Step(p[1..][i], p[1..][i + 1]) {
        assert Step(p[i + 1], p[i + 2]);
      }
      ChainKeepsCanonical(p[1..]);
    }
  }

  /** Parsed trees have equal canonical forms exactly when one is a rearrangement of the other. */
  lemma CanonicalDecides(a: Node, b: Node)
    requires Parsed(a) && Parsed(b)
    ensures Canonical(a) == Canonical(b) <==> Rearranged(a, b)
  {
    if Canonical(a) == Canonical(b) {
      CanonicalSpells(a);
      CanonicalSpells(b);
      RearrangedBack(b, Spell(Canonical(b)));
      RearrangedThen(a, Spell(Canonical(a)), b);
    }
    if Rearranged(a, b) {
      var p :| Chain(p) && p[0] == a && p[|p| - 1] == b;
      ChainKeepsCanonical(p);
    }
  }
}
