/**
 The partial evaluator of grounding_verifier.py over exact arithmetic, and what the canonical form
 and substitution do to values.

 Decimal arithmetic has infinities: zero to a negative power is infinite rather than an error, and
 the infinity then flows through the operations.  `None` is a raised exception.
 */
module FormulaSemantics {
  import opened Basics
  import opened FormulaSyntax
  import opened FormulaOrder
  import opened FormulaCanonical

  datatype Quantity = Finite(v: real) | Infinite(negative: bool)

  const ZERO := Finite(0.0)

  predicate Below(q: Quantity)
  {
    match q case Finite(v) => v < 0.0 case Infinite(n) => n
  }

  function Negated(q: Quantity): Quantity
  {
    match q case Finite(v) => Finite(-v) case Infinite(n) => Infinite(!n)
  }

  function Magnitude(q: Quantity): Quantity
  {
    if Below(q) then Negated(q) else q
  }

  function Added(a: Quantity, b: Quantity): Option<Quantity>
  {
    match (a, b)
    case (Finite(u), Finite(v)) => Some(Finite(u + v))
    case (Infinite(m), Infinite(n)) => if m == n then Some(a) else None
    case (Infinite(_), _) => Some(a)
    case _ => Some(b)
  }

  function Product(u: real, v: real): real
  {
    u * v
  }

  function Times(a: Quantity, b: Quantity): Option<Quantity>
  {
    match (a, b)
    case (Finite(u), Finite(v)) => Some(Finite(Product(u, v)))
    case _ => if a == ZERO || b == ZERO then None else Some(Infinite(Below(a) != Below(b)))
  }

  function Over(a: Quantity, b: Quantity): Option<Quantity>
  {
    match (a, b)
    case (Finite(u), Finite(v)) => if v == 0.0 then None else Some(Finite(u / v))
    case (Infinite(_), Infinite(_)) => None
    case (Infinite(_), _) => Some(Infinite(Below(a) != Below(b)))
    case _ => Some(ZERO)
  }

  function Raise(v: real, n: nat): real
  {
    if n == 0 then 1.0 else v * Raise(v, n - 1)
  }

  /** Integral exponents of magnitude at most 12; zero to the zero is an error. */
  function ToThe(a: Quantity, b: Quantity): Option<Quantity>
  {
    if b.Infinite? || b.v != b.v.Floor as real || b.v < -12.0 || b.v > 12.0 then None else
    var n := b.v.Floor;
    match a
    case Finite(v) =>
      if v == 0.0 then (if n == 0 then None else if n > 0 then Some(ZERO) else Some(Infinite(false)))
      else if n >= 0 then Some(Finite(Raise(v, n)))
      else
        RaiseNonZero(v, -n);
        Some(Finite(1.0 / Raise(v, -n)))
    case Infinite(negative) =>
      if n == 0 then Some(Finite(1.0)) else if n < 0 then Some(ZERO)
      else Some(Infinite(negative && n % 2 == 1))
  }

  lemma {:induction false} RaiseNonZero(v: real, n: nat)
    requires v != 0.0
    ensures Raise(v, n) != 0.0
  {
    if n > 0 {
      RaiseNonZero(v, n - 1);
    }
  }

  /* ---- evaluation ---- */

  type Bindings = map<string, real>

  function Combine(op: Op, a: Option<Quantity>, b: Option<Quantity>): Option<Quantity>
  {
    if a.None? || b.None? then None
    else
      match op
      case Add => Added(a.value, b.value)
      case Sub => Added(a.value, Negated(b.value))
      case Mul => Times(a.value, b.value)
      case Div => Over(a.value, b.value)
      case Pow => ToThe(a.value, b.value)
      case Neg => None
  }

  function Unit(op: Op): Option<Quantity>
  {
    Some(Finite(if op == Add then 0.0 else 1.0))
  }

  /** A sum or product of any number of operands. */
  function Fold(op: Op, vs: seq<Option<Quantity>>): Option<Quantity>
  {
    if vs == [] then Unit(op) else Combine(op, vs[0], Fold(op, vs[1..]))
  }

  function Evaluate(e: Node, env: Bindings): Option<Quantity>
    decreases e
  {
    match e
    case Num(v) => Some(Finite(v))
    case Sym(s) => if s in env then Some(Finite(env[s])) else None
    case App(op, args) =>
      var vs := seq(|args|, i requires 0 <= i < |args| => Evaluate(args[i], env));
      if Commutative(op) then Fold(op, vs)
      else if op == Neg then
        if |vs| == 1 && vs[0].Some? then Some(Negated(vs[0].value)) else None
      else
        if |vs| == 2 then Combine(op, vs[0], vs[1]) else None
  }

  function Values(es: seq<Node>, env: Bindings): (vs: seq<Option<Quantity>>)
    ensures |vs| == |es|
  {
    seq(|es|, i requires 0 <= i < |es| => Evaluate(es[i], env))
  }

  /* ---- sums and products do not depend on grouping or order ---- */

  lemma CombineLaws(op: Op, a: Option<Quantity>, b: Option<Quantity>, c: Option<Quantity>)
    requires Commutative(op)
    ensures Combine(op, a, b) == Combine(op, b, a)
    ensures Combine(op, Combine(op, a, b), c) == Combine(op, a, Combine(op, b, c))
    ensures Combine(op, Unit(op), a) == a
  {
    if op == Mul {
      if a.Some? && b.Some? {
        TimesCommutes(a.value, b.value);
        if c.Some? {
          TimesAssociates(a.value, b.value, c.value);
        }
      }
      if a.Some? {
        TimesOne(a.value);
      }
    }
  }

  lemma TimesOne(a: Quantity)
    ensures Times(Finite(1.0), a) == Some(a)
  {
  }

  lemma TimesCommutes(a: Quantity, b: Quantity)
    ensures Times(a, b) == Times(b, a)
  {
    if a.Finite? && b.Finite? {
      ProductLaws(a.v, b.v, 0.0);
    }
  }

  lemma TimesAssociates(a: Quantity, b: Quantity, c: Quantity)
    ensures Combine(Mul, Times(a, b), Some(c)) == Combine(Mul, Some(a), Times(b, c))
  {
    if a.Finite? && b.Finite? && c.Finite? {
      ProductLaws(a.v, b.v, c.v);
    } else if a.Finite? && b.Finite? {
      ProductSign(a.v, b.v);
    } else if b.Finite? && c.Finite? {
      ProductSign(b.v, c.v);
    } else {
      InfiniteAssociates(a, b, c);
    }
  }

  lemma InfiniteAssociates(a: Quantity, b: Quantity, c: Quantity)
    requires b.Infinite? || (a.Infinite? && c.Infinite?)
    ensures Combine(Mul, Times(a, b), Some(c)) == Combine(Mul, Some(a), Times(b, c))
  {
  }

  lemma ProductLaws(u: real, v: real, w: real)
    ensures Product(u, v) == Product(v, u)
    ensures Product(Product(u, v), w) == Product(u, Product(v, w))
  {
  }

  lemma ProductSign(u: real, v: real)
    ensures Product(u, v) == 0.0 <==> u == 0.0 || v == 0.0
    ensures u != 0.0 && v != 0.0 ==> (Product(u, v) < 0.0 <==> (u < 0.0) != (v < 0.0))
  {
  }

  lemma {:induction false} FoldJoins(op: Op, us: seq<Option<Quantity>>, vs: seq<Option<Quantity>>)
    requires Commutative(op)
    ensures Fold(op, us + vs) == Combine(op, Fold(op, us), Fold(op, vs))
  {
    if us == [] {
      assert us + vs == vs;
      CombineLaws(op, Fold(op, vs), None, None);
    } else {
      assert (us + vs)[1..] == us[1..] + vs;
      FoldJoins(op, us[1..], vs);
      CombineLaws(op, us[0], Fold(op, us[1..]), Fold(op, vs));
    }
  }

  lemma FoldHead(op: Op, e: Node, es: seq<Node>, env: Bindings)
    ensures Fold(op, Values([e] + es, env)) == Combine(op, Evaluate(e, env), Fold(op, Values(es, env)))
  {
    assert Values([e] + es, env)[1..] == Values(es, env);
  }

  lemma {:induction false} FoldInsert(op: Op, e: Node, es: seq<Node>, env: Bindings)
    requires Commutative(op)
    ensures Fold(op, Values(Insert(e, es), env)) == Combine(op, Evaluate(e, env), Fold(op, Values(es, env)))
  {
    FoldHead(op, e, es, env);
    if es != [] && !AtMost(e, es[0]) {
      var d, tail := es[0], es[1..];
      assert es == [d] + tail;
      FoldInsert(op, e, tail, env);
      FoldHead(op, d, tail, env);
      FoldHead(op, d, Insert(e, tail), env);
      var x, y, z := Evaluate(e, env), Evaluate(d, env), Fold(op, Values(tail, env));
      CombineLaws(op, x, y, z);
      CombineLaws(op, y, x, z);
    } else {
      assert Insert(e, es) == [e] + es;
    }
  }

  lemma {:induction false} FoldSort(op: Op, es: seq<Node>, env: Bindings)
    requires Commutative(op)
    ensures Fold(op, Values(Sort(es), env)) == Fold(op, Values(es, env))
  {
    if es != [] {
      FoldSort(op, es[1..], env);
      FoldInsert(op, es[0], Sort(es[1..]), env);
      FoldHead(op, es[0], es[1..], env);
      assert es == [es[0]] + es[1..];
    }
  }

  /** The canonical form has the value of the tree, and is defined where the tree is. */
  lemma {:induction false} CanonicalKeepsValue(e: Node, env: Bindings)
    ensures Evaluate(Canonical(e), env) == Evaluate(e, env)
    decreases e, 1
  {
    if e.App? {
      if Commutative(e.op) {
        CollectKeepsValue(e, env);
        FoldSort(e.op, Collect(e.op, e), env);
      } else {
        var c := Canonical(e);
        forall i | 0 <= i < |e.args| ensures Evaluate(c.args[i], env) == Evaluate(e.args[i], env) {
          CanonicalKeepsValue(e.args[i], env);
        }
        assert Values(c.args, env) == Values(e.args, env);
      }
    }
  }

  lemma {:induction false} CollectKeepsValue(e: Node, env: Bindings)
    requires e.App? && Commutative(e.op)
    ensures Fold(e.op, Values(Collect(e.op, e), env)) == Evaluate(e, env)
    decreases e, 0
  {
    CollectFromKeepsValue(e, 0, env);
    assert e.args[0..] == e.args;
  }

  lemma {:induction false} CollectFromKeepsValue(e: Node, i: nat, env: Bindings)
    requires e.App? && Commutative(e.op) && i <= |e.args|
    ensures Fold(e.op, Values(CollectFrom(e, i), env)) == Fold(e.op, Values(e.args[i..], env))
    decreases e, 0, |e.args| - i
  {
    if i < |e.args| {
      var arg, rest := e.args[i], CollectFrom(e, i + 1);
      CollectFromKeepsValue(e, i + 1, env);
      var here := Collect(e.op, arg);
      assert Fold(e.op, Values(here, env)) == Evaluate(arg, env) by {
        if Rooted(arg, e.op) {
          CollectKeepsValue(arg, env);
        } else {
          CanonicalKeepsValue(arg, env);
          FoldSingle(e.op, Canonical(arg), env);
        }
      }
      assert Values(here + rest, env) == Values(here, env) + Values(rest, env);
      FoldJoins(e.op, Values(here, env), Values(rest, env));
      assert e.args[i..] == [arg] + e.args[i + 1..];
      FoldHead(e.op, arg, e.args[i + 1..], env);
    }
  }

  lemma FoldSingle(op: Op, e: Node, env: Bindings)
    requires Commutative(op)
    ensures Fold(op, Values([e], env)) == Evaluate(e, env)
  {
    assert Values([e], env)[1..] == [];
    CombineLaws(op, Unit(op), Evaluate(e, env), None);
  }

  /** Rearranged trees agree under every binding, in value and in being defined. */
  lemma RearrangedAgree(a: Node, b: Node, env: Bindings)
    requires Parsed(a) && Parsed(b) && Rearranged(a, b)
    ensures Evaluate(a, env) == Evaluate(b, env)
  {
    CanonicalDecides(a, b);
    CanonicalKeepsValue(a, env);
    CanonicalKeepsValue(b, env);
  }
}
