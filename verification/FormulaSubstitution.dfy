/**
 Substitution of numbers for symbols in a canonical tree.  It is evaluated like the tree with the
 bindings in the environment, and it yields the canonical form of the plain replacement.
 */
module FormulaSubstitution {
  import opened Basics
  import opened FormulaSyntax
  import opened FormulaOrder
  import opened FormulaCanonical
  import opened FormulaSemantics

  function Substitute(e: Node, bindings: Bindings): (r: Node)
    ensures forall op :: Rooted(r, op) <==> Rooted(e, op)
  {
    match e
    case Sym(s) => if s in bindings then Num(bindings[s]) else e
    case Num(_) => e
    case App(op, args) =>
      Canonical(App(op, seq(|args|, i requires 0 <= i < |args| => Substitute(args[i], bindings))))
  }

  /** Evaluating after substitution is evaluating with the bindings added to the environment. */
  lemma {:induction false} SubstitutionLemma(e: Node, bindings: Bindings, env: Bindings)
    ensures Evaluate(Substitute(e, bindings), env) == Evaluate(e, env + bindings)
  {
    if e.App? {
      var args := seq(|e.args|, i requires 0 <= i < |e.args| => Substitute(e.args[i], bindings));
      forall i | 0 <= i < |args| ensures Evaluate(args[i], env) == Evaluate(e.args[i], env + bindings) {
        SubstitutionLemma(e.args[i], bindings, env);
      }
      assert Values(args, env) == Values(e.args, env + bindings);
      CanonicalKeepsValue(App(e.op, args), env);
    }
  }

  /** The tree with every bound symbol overwritten and nothing else touched. */
  ghost function Plug(e: Node, bindings: Bindings): (r: Node)
    ensures forall op :: Rooted(r, op) <==> Rooted(e, op)
  {
    match e
    case Sym(s) => if s in bindings then Num(bindings[s]) else e
    case Num(_) => e
    case App(op, args) => App(op, seq(|args|, i requires 0 <= i < |args| => Plug(args[i], bindings)))
  }

  lemma {:induction false} PlugIsParsed(e: Node, bindings: Bindings)
    requires Parsed(e)
    ensures Parsed(Plug(e, bindings))
  {
    if e.App? {
      PlugIsParsed(e.args[0], bindings);
      if e.op != Neg {
        PlugIsParsed(e.args[1], bindings);
      }
    }
  }

  /** Canonical operands that a nest of `op` keeps as they are. */
  ghost predicate Settled(op: Op, xs: seq<Node>)
  {
    forall x | x in xs :: !Rooted(x, op) && Canonical(x) == x
  }

  lemma {:induction false} CollectSettled(op: Op, xs: seq<Node>, i: nat)
    requires Settled(op, xs) && i <= |xs|
    ensures CollectFrom(App(op, xs), i) == xs[i..]
    decreases |xs| - i
  {
    if i < |xs| {
      CollectSettled(op, xs, i + 1);
      assert xs[i] in xs;
      assert xs[i..] == [xs[i]] + xs[i + 1..];
    }
  }

  lemma SettledNest(op: Op, xs: seq<Node>)
    requires Commutative(op) && Settled(op, xs)
    ensures Canonical(App(op, xs)) == App(op, Sort(xs))
  {
    CollectSettled(op, xs, 0);
    assert xs[0..] == xs;
  }

  lemma SortKeepsSettled(op: Op, xs: seq<Node>)
    requires Settled(op, xs)
    ensures Settled(op, Sort(xs))
  {
    forall x | x in Sort(xs) ensures x in xs {
      assert x in multiset(Sort(xs));
    }
  }

  /** Canonicalising twice changes nothing. */
  lemma {:induction false} CanonicalTwice(e: Node)
    ensures Canonical(Canonical(e)) == Canonical(e)
    decreases e, 1
  {
    if e.App? {
      if Commutative(e.op) {
        var cs := Collect(e.op, e);
        CollectIsSettled(e, 0);
        SortKeepsSettled(e.op, cs);
        SettledNest(e.op, Sort(cs));
        SortForgetsOrder(cs, Sort(cs));
      } else {
        var c := Canonical(e);
        forall i | 0 <= i < |c.args| ensures Canonical(c.args[i]) == c.args[i] {
          CanonicalTwice(e.args[i]);
        }
        assert Canonical(c).args == c.args;
      }
    }
  }

  lemma {:induction false} CollectIsSettled(e: Node, i: nat)
    requires e.App? && Commutative(e.op) && i <= |e.args|
    ensures Settled(e.op, CollectFrom(e, i))
    decreases e, 0, |e.args| - i
  {
    if i < |e.args| {
      if Rooted(e.args[i], e.op) {
        CollectIsSettled(e.args[i], 0);
      } else {
        CanonicalTwice(e.args[i]);
      }
      CollectIsSettled(e, i + 1);
    }
  }

  /* ---- substitution commutes with the canonical form ---- */

  ghost function SubstituteAll(es: seq<Node>, bindings: Bindings): (rs: seq<Node>)
    ensures |rs| == |es|
  {
    seq(|es|, i requires 0 <= i < |es| => Substitute(es[i], bindings))
  }

  lemma {:induction false} InsertSubstitutes(e: Node, es: seq<Node>, bindings: Bindings)
    ensures multiset(SubstituteAll(Insert(e, es), bindings))
         == multiset{Substitute(e, bindings)} + multiset(SubstituteAll(es, bindings))
  {
    SubstituteHead(e, es, bindings);
    InsertUnfold(e, es);
    hide Insert, Substitute, SubstituteAll, AtMost;
    if es != [] && !AtMost(e, es[0]) {
      var first, rest := es[0], es[1..];
      InsertSubstitutes(e, rest, bindings);
      SubstituteHead(first, rest, bindings);
      SubstituteHead(first, Insert(e, rest), bindings);
      assert es == [first] + rest;
    }
  }

  lemma SubstituteHead(e: Node, es: seq<Node>, bindings: Bindings)
    ensures multiset(SubstituteAll([e] + es, bindings))
         == multiset{Substitute(e, bindings)} + multiset(SubstituteAll(es, bindings))
  {
    hide *;
    SubstituteJoins([e], es, bindings);
    SubstituteOne(e, bindings);
    assert multiset([Substitute(e, bindings)] + SubstituteAll(es, bindings))
        == multiset{Substitute(e, bindings)} + multiset(SubstituteAll(es, bindings));
  }

  lemma {:induction false} SortSubstitutes(es: seq<Node>, bindings: Bindings)
    ensures multiset(SubstituteAll(Sort(es), bindings)) == multiset(SubstituteAll(es, bindings))
  {
    if es != [] {
      var first, rest := es[0], es[1..];
      assert es == [first] + rest && Sort(es) == Insert(first, Sort(rest));
      hide *;
      SortSubstitutes(rest, bindings);
      InsertSubstitutes(first, Sort(rest), bindings);
      SubstituteHead(first, rest, bindings);
    }
  }

  /** Substituting into the canonical form gives the canonical form of the plain replacement. */
  lemma {:induction false} SubstituteIsPlug(e: Node, bindings: Bindings)
    ensures Substitute(Canonical(e), bindings) == Canonical(Plug(e, bindings))
    decreases e, 1
  {
    if e.App? {
      if Commutative(e.op) {
        CollectPlugs(e, 0, bindings);
        NestPlugs(e, bindings);
      } else {
        var c, p := Canonical(e), Plug(e, bindings);
        forall i | 0 <= i < |e.args|
          ensures Substitute(c.args[i], bindings) == Canonical(p.args[i])
          ensures Canonical(Substitute(c.args[i], bindings)) == Substitute(c.args[i], bindings)
        {
          SubstituteIsPlug(e.args[i], bindings);
          CanonicalTwice(p.args[i]);
        }
        PlainPlugs(c, p, bindings);
      }
    }
  }

  lemma PlainPlugs(c: Node, p: Node, bindings: Bindings)
    requires c.App? && !Commutative(c.op) && Rooted(p, c.op) && |p.args| == |c.args|
    requires forall i | 0 <= i < |c.args| ::
               && Substitute(c.args[i], bindings) == Canonical(p.args[i])
               && Canonical(Substitute(c.args[i], bindings)) == Substitute(c.args[i], bindings)
    ensures Substitute(c, bindings) == Canonical(p)
  {
    assert Substitute(c, bindings).args == Canonical(p).args;
  }

  lemma NestPlugs(e: Node, bindings: Bindings)
    requires e.App? && Commutative(e.op)
    requires SubstituteAll(CollectFrom(e, 0), bindings) == CollectFrom(Plug(e, bindings), 0)
    ensures Substitute(Canonical(e), bindings) == Canonical(Plug(e, bindings))
  {
    var op, cs, ds := e.op, Collect(e.op, e), Collect(e.op, Plug(e, bindings));
    var xs := SubstituteAll(Sort(cs), bindings);
    SortSubstitutes(cs, bindings);
    assert multiset(xs) == multiset(ds);
    assert Settled(op, xs) by {
      CollectIsSettled(Plug(e, bindings), 0);
      forall x | x in xs ensures x in ds {
        assert x in multiset(xs);
      }
    }
    SettledNest(op, xs);
    SortForgetsOrder(xs, ds);
    assert Substitute(App(op, Sort(cs)), bindings) == Canonical(App(op, xs));
  }

  lemma {:induction false} CollectPlugs(e: Node, i: nat, bindings: Bindings)
    requires e.App? && Commutative(e.op) && i <= |e.args|
    ensures SubstituteAll(CollectFrom(e, i), bindings) == CollectFrom(Plug(e, bindings), i)
    decreases e, 0, |e.args| - i
  {
    if i < |e.args| {
      var arg, p := e.args[i], Plug(e, bindings);
      CollectPlugs(e, i + 1, bindings);
      CollectOnePlugs(e.op, arg, bindings);
      hide Collect, Substitute, SubstituteAll;
      SubstituteJoins(Collect(e.op, arg), CollectFrom(e, i + 1), bindings);
    }
  }

  lemma {:induction false} CollectOnePlugs(op: Op, arg: Node, bindings: Bindings)
    requires Commutative(op)
    ensures SubstituteAll(Collect(op, arg), bindings) == Collect(op, Plug(arg, bindings))
    decreases arg, 2
  {
    if Rooted(arg, op) {
      CollectPlugs(arg, 0, bindings);
    } else {
      SubstituteIsPlug(arg, bindings);
      SubstituteOne(Canonical(arg), bindings);
    }
  }

  lemma SubstituteOne(e: Node, bindings: Bindings)
    ensures SubstituteAll([e], bindings) == [Substitute(e, bindings)]
  {
    hide Substitute;
  }

  lemma SubstituteJoins(a: seq<Node>, b: seq<Node>, bindings: Bindings)
    ensures SubstituteAll(a + b, bindings) == SubstituteAll(a, bindings) + SubstituteAll(b, bindings)
  {
    hide Substitute;
  }

  /**
   A parsed tree has the canonical form of the substituted rule exactly when it is a rearrangement
   of the rule with the numbers written in.
   */
  lemma SubstitutionDecides(shown: Node, rule: Node, bindings: Bindings)
    requires Parsed(shown) && Parsed(rule)
    ensures Parsed(Plug(rule, bindings))
    ensures Canonical(shown) == Substitute(Canonical(rule), bindings) <==> Rearranged(shown, Plug(rule, bindings))
  {
    PlugIsParsed(rule, bindings);
    SubstituteIsPlug(rule, bindings);
    CanonicalDecides(shown, Plug(rule, bindings));
  }
}
