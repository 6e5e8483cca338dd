/**
 A total order on expression trees and the sorting of lists of trees by it.  The source sorts by
 the printed representation; which total order is used does not matter to any result here.
 */
module FormulaOrder {
  import opened FormulaSyntax

  function OpIndex(op: Op): nat
  {
    match op
    case Neg => 0 case Add => 1 case Sub => 2 case Mul => 3 case Div => 4 case Pow => 5
  }

  predicate TextBefore(s: string, t: string)
  {
    t != [] && (s == [] || s[0] < t[0] || (s[0] == t[0] && TextBefore(s[1..], t[1..])))
  }

  predicate Before(a: Node, b: Node)
    decreases a, 0
  {
    match (a, b)
    case (Num(u), Num(v)) => u < v
    case (Sym(s), Sym(t)) => TextBefore(s, t)
    case (App(o, _), App(p, _)) => OpIndex(o) < OpIndex(p) || (o == p && ArgsBefore(a, b, 0))
    case (Num(_), _) => !b.Num?
    case (Sym(_), _) => b.App?
    case _ => false
  }

  predicate ArgsBefore(a: Node, b: Node, i: nat)
    requires a.App? && b.App? && i <= |a.args| && i <= |b.args|
    decreases a, 0, |a.args| - i
  {
    i < |b.args| &&
    (i == |a.args| || Before(a.args[i], b.args[i]) || (a.args[i] == b.args[i] && ArgsBefore(a, b, i + 1)))
  }

  predicate AtMost(a: Node, b: Node)
  {
    a == b || Before(a, b)
  }

  lemma {:induction false} TextTotal(s: string, t: string)
    ensures s == t || TextBefore(s, t) || TextBefore(t, s)
    ensures !(TextBefore(s, t) && TextBefore(t, s)) && !TextBefore(s, s)
  {
    if s != [] {
      TextTotal(s[1..], s[1..]);
      if t != [] {
        TextTotal(s[1..], t[1..]);
        assert s == [s[0]] + s[1..] && t == [t[0]] + t[1..];
      }
    }
  }

  lemma {:induction false} TextTransitive(s: string, t: string, u: string)
    requires TextBefore(s, t) && TextBefore(t, u)
    ensures TextBefore(s, u)
  {
    if s != [] && s[0] == t[0] == u[0] {
      TextTransitive(s[1..], t[1..], u[1..]);
    }
  }

  lemma {:induction false} Total(a: Node, b: Node)
    ensures a == b || Before(a, b) || Before(b, a)
    ensures !(Before(a, b) && Before(b, a))
    decreases a, 0
  {
    match (a, b)
    case (Sym(s), Sym(t)) => TextTotal(s, t);
    case (App(o, _), App(p, _)) =>
      if o == p {
        ArgsTotal(a, b, 0);
      }
    case _ =>
  }

  lemma {:induction false} ArgsTotal(a: Node, b: Node, i: nat)
    requires a.App? && b.App? && i <= |a.args| && i <= |b.args| && a.args[..i] == b.args[..i]
    ensures a.args == b.args || ArgsBefore(a, b, i) || ArgsBefore(b, a, i)
    ensures !(ArgsBefore(a, b, i) && ArgsBefore(b, a, i))
    decreases a, 0, |a.args| - i
  {
    if i < |a.args| && i < |b.args| {
      Total(a.args[i], b.args[i]);
      if a.args[i] == b.args[i] {
        assert a.args[..i + 1] == a.args[..i] + [a.args[i]];
        assert b.args[..i + 1] == b.args[..i] + [b.args[i]];
        ArgsTotal(a, b, i + 1);
      }
    } else if |a.args| == |b.args| {
      assert a.args == a.args[..i] && b.args == b.args[..i];
    }
  }

  lemma {:induction false} Transitive(a: Node, b: Node, c: Node)
    requires Before(a, b) && Before(b, c)
    ensures Before(a, c)
    decreases a, 0
  {
    match (a, b, c)
    case (Sym(s), Sym(t), Sym(u)) => TextTransitive(s, t, u);
    case (App(o, _), App(p, _), App(q, _)) =>
      if o == p == q {
        ArgsTransitive(a, b, c, 0);
      }
    case _ =>
  }

  lemma {:induction false} ArgsTransitive(a: Node, b: Node, c: Node, i: nat)
    requires a.App? && b.App? && c.App? && i <= |a.args| && i <= |b.args| && i <= |c.args|
    requires ArgsBefore(a, b, i) && ArgsBefore(b, c, i)
    ensures ArgsBefore(a, c, i)
    decreases a, 0, |a.args| - i
  {
    if i < |a.args| {
      if Before(a.args[i], b.args[i]) && Before(b.args[i], c.args[i]) {
        Transitive(a.args[i], b.args[i], c.args[i]);
      } else if a.args[i] == b.args[i] == c.args[i] {
        Total(a.args[i], a.args[i]);
        ArgsTransitive(a, b, c, i + 1);
      }
    }
  }

  lemma AtMostOrder(a: Node, b: Node, c: Node)
    ensures AtMost(a, b) || AtMost(b, a)
    ensures AtMost(a, b) && AtMost(b, a) ==> a == b
    ensures AtMost(a, b) && AtMost(b, c) ==> AtMost(a, c)
  {
    Total(a, b);
    if Before(a, b) && Before(b, c) {
      Transitive(a, b, c);
    }
  }

  /* ---- sorting ---- */

  function Insert(e: Node, s: seq<Node>): (r: seq<Node>)
    ensures multiset(r) == multiset([e]) + multiset(s)
    ensures |r| == |s| + 1
  {
    if s == [] then [e]
    else if AtMost(e, s[0]) then [e] + s
    else
      assert s == [s[0]] + s[1..];
      [s[0]] + Insert(e, s[1..])
  }

  function Sort(s: seq<Node>): (r: seq<Node>)
    ensures multiset(r) == multiset(s)
    ensures |r| == |s|
  {
    if s == [] then []
    else
      assert s == [s[0]] + s[1..];
      Insert(s[0], Sort(s[1..]))
  }

  ghost predicate Sorted(s: seq<Node>)
  {
    forall i, j | 0 <= i < j < |s| :: AtMost(s[i], s[j])
  }

  lemma {:induction false} InsertSorts(e: Node, s: seq<Node>)
    requires Sorted(s)
    ensures Sorted(Insert(e, s))
  {
    if s == [] {
    } else if AtMost(e, s[0]) {
      forall j | 0 <= j < |s| ensures AtMost(e, s[j]) {
        AtMostOrder(e, s[0], s[j]);
      }
    } else {
      InsertSorts(e, s[1..]);
      var r := Insert(e, s[1..]);
      forall j | 0 <= j < |r| ensures AtMost(s[0], r[j]) {
        AtMostOrder(e, s[0], s[0]);
        assert r[j] in multiset(r);
        assert r[j] == e || r[j] in s[1..];
      }
    }
  }

  lemma {:induction false} SortSorts(s: seq<Node>)
    ensures Sorted(Sort(s))
  {
    if s != [] {
      SortSorts(s[1..]);
      InsertSorts(s[0], Sort(s[1..]));
    }
  }

  lemma SortedHeads(s: seq<Node>, t: seq<Node>)
    requires s != [] && t != [] && Sorted(s) && Sorted(t) && multiset(s) == multiset(t)
    ensures s[0] == t[0]
  {
    assert s[0] in multiset(t) && t[0] in multiset(s);
    AtMostOrder(s[0], t[0], t[0]);
  }

  lemma TailContents(s: seq<Node>)
    requires s != []
    ensures multiset(s[1..]) == multiset(s) - multiset{s[0]}
  {
    assert s == [s[0]] + s[1..];
  }

  lemma {:induction false} SortedIsUnique(s: seq<Node>, t: seq<Node>)
    requires Sorted(s) && Sorted(t) && multiset(s) == multiset(t)
    ensures s == t
  {
    assert |multiset(s)| == |s| && |multiset(t)| == |t|;
    if s != [] {
      SortedHeads(s, t);
      TailContents(s);
      TailContents(t);
      SortedIsUnique(s[1..], t[1..]);
      assert s == [s[0]] + s[1..] && t == [t[0]] + t[1..];
    }
  }

  /** Sorting forgets the order of a list and nothing else. */
  lemma SortForgetsOrder(s: seq<Node>, t: seq<Node>)
    ensures Sort(s) == Sort(t) <==> multiset(s) == multiset(t)
  {
    if multiset(s) == multiset(t) {
      SortSorts(s);
      SortSorts(t);
      SortedIsUnique(Sort(s), Sort(t));
    }
  }
}
