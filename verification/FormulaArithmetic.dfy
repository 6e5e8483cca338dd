/**
 What the operators of a formula mean: on finite values they are the operations of arithmetic, each
 known by the law that undoes it, and every raised exception spreads.
 */
module FormulaArithmetic {
  import opened Basics
  import opened FormulaSyntax
  import opened FormulaCanonical
  import opened FormulaSemantics

  /** The tree has this finite value. */
  ghost predicate Has(e: Node, env: Bindings, v: real)
  {
    Evaluate(e, env) == Some(Finite(v))
  }

  function Pair(op: Op, x: Node, y: Node): Node
  {
    App(op, [x, y])
  }

  lemma PairValue(op: Op, x: Node, y: Node, env: Bindings)
    ensures Evaluate(Pair(op, x, y), env) ==
            if op == Neg then None
            else if Commutative(op) then Fold(op, [Evaluate(x, env), Evaluate(y, env)])
            else Combine(op, Evaluate(x, env), Evaluate(y, env))
  {
    hide Fold, Combine;
    assert Values([x, y], env) == [Evaluate(x, env), Evaluate(y, env)];
  }

  lemma FoldTwo(op: Op, a: Option<Quantity>, b: Option<Quantity>)
    ensures Fold(op, [a, b]) == Combine(op, a, Combine(op, b, Unit(op)))
  {
    hide Combine, Unit;
    assert [a, b][1..] == [b] && [b][1..] == [];
    assert Fold(op, []) == Unit(op);
    assert Fold(op, [b]) == Combine(op, b, Unit(op));
  }

  /* ---- sums, products, negation ---- */

  lemma SumOfTwo(x: Node, y: Node, env: Bindings, u: real, v: real)
    requires Has(x, env, u) && Has(y, env, v)
    ensures Has(Pair(Add, x, y), env, u + v)
  {
    PairValue(Add, x, y, env);
    FoldTwo(Add, Evaluate(x, env), Evaluate(y, env));
  }

  lemma ProductOfTwo(x: Node, y: Node, env: Bindings, u: real, v: real)
    requires Has(x, env, u) && Has(y, env, v)
    ensures Has(Pair(Mul, x, y), env, u * v)
  {
    PairValue(Mul, x, y, env);
    FoldTwo(Mul, Evaluate(x, env), Evaluate(y, env));
    hide Evaluate, Fold;
    TimesOne(v);
  }

  lemma TimesOne(v: real)
    ensures Times(Finite(v), Finite(1.0)) == Some(Finite(v))
  {
  }

  lemma NegationOf(x: Node, env: Bindings, u: real)
    requires Has(x, env, u)
    ensures Has(App(Neg, [x]), env, -u)
  {
    assert Values([x], env) == [Evaluate(x, env)];
  }

  /** A sum of any number of finite values is the sum of all of them. */
  function Sum(vs: seq<real>): real
  {
    if vs == [] then 0.0 else vs[0] + Sum(vs[1..])
  }

  function Finites(vs: seq<real>): (qs: seq<Option<Quantity>>)
    ensures |qs| == |vs|
  {
    seq(|vs|, i requires 0 <= i < |vs| => Some(Finite(vs[i])))
  }

  lemma {:induction false} FoldSum(vs: seq<real>)
    ensures Fold(Add, Finites(vs)) == Some(Finite(Sum(vs)))
  {
    if vs != [] {
      FoldSum(vs[1..]);
      assert Finites(vs)[1..] == Finites(vs[1..]);
    }
  }

  lemma SumOfMany(es: seq<Node>, env: Bindings, vs: seq<real>)
    requires |es| == |vs| && forall i | 0 <= i < |es| :: Has(es[i], env, vs[i])
    ensures Has(App(Add, es), env, Sum(vs))
  {
    FoldSum(vs);
    assert Values(es, env) == Finites(vs);
    hide Fold;
  }

  /* ---- differences and quotients, by what undoes them ---- */

  /** Adding back what was taken away gives the first operand. */
  lemma DifferenceUndone(x: Node, y: Node, env: Bindings, u: real, v: real)
    requires Has(x, env, u) && Has(y, env, v)
    ensures Has(Pair(Sub, x, y), env, u - v)
    ensures Has(Pair(Add, Pair(Sub, x, y), y), env, u)
  {
    PairValue(Sub, x, y, env);
    SumOfTwo(Pair(Sub, x, y), y, env, u - v, v);
  }

  /** A quotient times its divisor is the dividend; the quotient is undefined exactly for a divisor of zero. */
  lemma QuotientUndone(x: Node, y: Node, env: Bindings, u: real, v: real)
    requires Has(x, env, u) && Has(y, env, v)
    ensures Evaluate(Pair(Div, x, y), env).None? <==> v == 0.0
    ensures v != 0.0 ==> Has(Pair(Mul, Pair(Div, x, y), y), env, u)
  {
    PairValue(Div, x, y, env);
    if v != 0.0 {
      var w := u / v;
      assert Has(Pair(Div, x, y), env, w);
      Cancels(u, v, w);
      ProductIs(Pair(Div, x, y), y, env, w, v, u);
    }
  }

  lemma Cancels(u: real, v: real, w: real)
    requires v != 0.0 && w == u / v
    ensures w * v == u
  {
  }

  /** The product under another name. */
  lemma ProductIs(x: Node, y: Node, env: Bindings, u: real, v: real, w: real)
    requires Has(x, env, u) && Has(y, env, v) && w == u * v
    ensures Has(Pair(Mul, x, y), env, w)
  {
    ProductOfTwo(x, y, env, u, v);
  }

  /* ---- powers ---- */

  /** The exponent is an integer from -12 to 12. */
  predicate Small(b: real)
  {
    b == b.Floor as real && -12.0 <= b <= 12.0
  }

  lemma PowerValue(x: Node, y: Node, env: Bindings, u: real, b: real)
    requires Has(x, env, u) && Has(y, env, b)
    ensures Evaluate(Pair(Pow, x, y), env) == ToThe(Finite(u), Finite(b))
  {
    PairValue(Pow, x, y, env);
  }

  /** A power is undefined exactly for an exponent that is not small, and for zero to the zero. */
  lemma PowerIsDefined(x: Node, y: Node, env: Bindings, u: real, b: real)
    requires Has(x, env, u) && Has(y, env, b)
    ensures Evaluate(Pair(Pow, x, y), env).None? <==> !Small(b) || (u == 0.0 && b == 0.0)
    ensures Evaluate(Pair(Pow, x, y), env) == Some(Infinite(false)) <==> Small(b) && u == 0.0 && b < 0.0
    ensures Evaluate(Pair(Pow, x, y), env) != Some(Infinite(true))
  {
    PowerValue(x, y, env, u, b);
    hide Raise, Evaluate;
  }

  /** The power with exponent zero is one. */
  lemma PowerZero(x: Node, y: Node, env: Bindings, u: real)
    requires Has(x, env, u) && Has(y, env, 0.0) && u != 0.0
    ensures Has(Pair(Pow, x, y), env, 1.0)
  {
    PowerValue(x, y, env, u, 0.0);
    WholeFloor(0);
    hide Evaluate;
  }

  lemma WholeFloor(n: int)
    ensures (n as real).Floor == n
  {
  }

  /** The next power is the power times the base. */
  lemma PowerNext(x: Node, y: Node, z: Node, env: Bindings, u: real, n: nat)
    requires n < 12 && (u != 0.0 || n > 0)
    requires Has(x, env, u) && Has(y, env, n as real) && Has(z, env, (n + 1) as real)
    ensures exists w: real :: Has(Pair(Pow, x, y), env, w) && Has(Pair(Pow, x, z), env, w * u)
  {
    PowerValue(x, y, env, u, n as real);
    PowerValue(x, z, env, u, (n + 1) as real);
    WholeFloor(n);
    WholeFloor(n + 1);
    RaiseNext(u, n);
    hide Evaluate, Raise;
    if u == 0.0 {
      assert Has(Pair(Pow, x, y), env, 0.0) && Has(Pair(Pow, x, z), env, 0.0 * u);
    } else {
      assert Has(Pair(Pow, x, y), env, Raise(u, n)) && Has(Pair(Pow, x, z), env, Raise(u, n) * u);
    }
  }

  lemma RaiseNext(u: real, n: nat)
    ensures Raise(u, n + 1) == Raise(u, n) * u
  {
    assert Raise(u, n + 1) == u * Raise(u, n);
  }

  /** Opposite powers of a number other than zero multiply to one. */
  lemma PowerOpposite(x: Node, y: Node, z: Node, env: Bindings, u: real, n: nat)
    requires n <= 12 && u != 0.0
    requires Has(x, env, u) && Has(y, env, n as real) && Has(z, env, (-(n as int)) as real)
    ensures Has(Pair(Mul, Pair(Pow, x, z), Pair(Pow, x, y)), env, 1.0)
  {
    PowerValue(x, y, env, u, n as real);
    PowerValue(x, z, env, u, (-(n as int)) as real);
    WholeFloor(n);
    WholeFloor(-(n as int));
    RaiseNonZero(u, n);
    var w := Raise(u, n);
    if n == 0 {
      ProductOfTwo(Pair(Pow, x, z), Pair(Pow, x, y), env, 1.0, 1.0);
    } else {
      hide Evaluate, Raise;
      var inverse := 1.0 / w;
      assert Has(Pair(Pow, x, z), env, inverse) && Has(Pair(Pow, x, y), env, w);
      Cancels(1.0, w, inverse);
      ProductIs(Pair(Pow, x, z), Pair(Pow, x, y), env, inverse, w, 1.0);
    }
  }

  /* ---- exceptions and infinities ---- */

  /** An operand that raises makes the whole raise. */
  lemma RaisingSpreads(op: Op, x: Node, y: Node, env: Bindings)
    requires Evaluate(x, env).None? || Evaluate(y, env).None?
    ensures Evaluate(Pair(op, x, y), env).None?
    ensures Evaluate(x, env).None? ==> Evaluate(App(Neg, [x]), env).None?
  {
    PairValue(op, x, y, env);
    FoldTwo(op, Evaluate(x, env), Evaluate(y, env));
    hide Added, Times, Over, ToThe;
    assert Values([x], env) == [Evaluate(x, env)];
  }

  /** Infinities absorb finite terms and factors other than zero, and raise where the result is open. */
  lemma InfinityLaws(x: Node, y: Node, env: Bindings, negative: bool, v: real)
    requires Evaluate(x, env) == Some(Infinite(negative)) && Has(y, env, v)
    ensures Evaluate(Pair(Add, x, y), env) == Evaluate(x, env) == Evaluate(Pair(Sub, x, y), env)
    ensures Evaluate(App(Neg, [x]), env) == Some(Infinite(!negative))
    ensures Evaluate(Pair(Add, x, x), env) == Evaluate(x, env) && Evaluate(Pair(Sub, x, x), env).None?
    ensures Evaluate(Pair(Mul, x, y), env) == if v == 0.0 then None else Some(Infinite(negative != (v < 0.0)))
    ensures Evaluate(Pair(Div, x, x), env).None? && Has(Pair(Div, y, x), env, 0.0)
    ensures Evaluate(Pair(Div, x, y), env) == Some(Infinite(negative != (v < 0.0)))
  {
    FoldTwo(Add, Evaluate(x, env), Evaluate(y, env));
    FoldTwo(Add, Evaluate(x, env), Evaluate(x, env));
    FoldTwo(Mul, Evaluate(x, env), Evaluate(y, env));
    PairValue(Add, x, y, env);
    PairValue(Add, x, x, env);
    PairValue(Sub, x, y, env);
    PairValue(Sub, x, x, env);
    PairValue(Mul, x, y, env);
    PairValue(Div, x, x, env);
    PairValue(Div, y, x, env);
    PairValue(Div, x, y, env);
    assert Values([x], env) == [Evaluate(x, env)];
  }

  /** A power of an infinity: one for exponent zero, zero for negative ones, else infinite with the sign of the power. */
  lemma InfinitePowers(x: Node, y: Node, env: Bindings, negative: bool, n: int)
    requires Evaluate(x, env) == Some(Infinite(negative)) && Has(y, env, n as real) && -12 <= n <= 12
    ensures Evaluate(Pair(Pow, x, y), env) ==
            if n == 0 then Some(Finite(1.0)) else if n < 0 then Some(Finite(0.0))
            else Some(Infinite(negative && n % 2 == 1))
  {
    PairValue(Pow, x, y, env);
    WholeFloor(n);
    hide Evaluate, Raise;
  }

  /* ---- leaves ---- */

  lemma LeafValues(s: string, env: Bindings, v: real)
    ensures Has(Num(v), env, v)
    ensures Evaluate(Sym(s), env) == if s in env then Some(Finite(env[s])) else None
  {
  }
}
