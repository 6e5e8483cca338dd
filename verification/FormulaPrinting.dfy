/**
 Minimal-bracket printing of expression trees, and the proof that the parser inverts it.

 The printer has its own tables of the notation: sums bind loosest, then products, then a leading
 minus and powers; ^ associates to the right, the other operators to the left.
 */
module FormulaPrinting {
  import opened Basics
  import opened FormulaSyntax

  function Sign(op: Op): Token
    requires op != Neg
  {
    match op
    case Add => Plus
    case Sub => Minus
    case Mul => Star
    case Div => Slash
    case Pow => Caret
  }

  /** How tightly an operator holds its operands together. */
  function OwnLevel(op: Op): nat
  {
    match op
    case Add => 1
    case Sub => 1
    case Mul => 2
    case Div => 2
    case Neg => 3
    case Pow => 3
  }

  /** How tightly a tree holds together: 4 for a leaf. */
  function Level(e: Node): nat
  {
    if e.App? then OwnLevel(e.op) else 4
  }

  /** The level demanded of the operand to the left of an operator. */
  function LeftLevel(op: Op): nat
    requires op != Neg
  {
    match op
    case Add => 1
    case Sub => 1
    case Mul => 2
    case Div => 2
    case Pow => 4
  }

  /** The level demanded of the operand to the right of an operator. */
  function RightLevel(op: Op): nat
  {
    match op
    case Add => 2
    case Sub => 2
    case Mul => 3
    case Div => 3
    case Neg => 3
    case Pow => 3
  }

  /** The level of the operator that comes next, or -1. */
  function NextLevel(ts: seq<Token>): int
  {
    if ts == [] then -1 else
    match ts[0]
    case Plus => 1
    case Minus => 1
    case Star => 2
    case Slash => 2
    case Caret => 3
    case _ => -1
  }

  /** The parser's tables are the printer's. */
  lemma TablesAgree(op: Op)
    requires op != Neg
    ensures Power(Sign(op)) == OwnLevel(op) && Binary(Sign(op)) == op && RightMinimum(Sign(op)) == RightLevel(op)
    ensures 1 <= OwnLevel(op) <= LeftLevel(op) <= 4 && RightLevel(op) <= 3
  {
  }

  lemma NextLevelIsPower(ts: seq<Token>)
    ensures NextLevel(ts) == if ts == [] then -1 else Power(ts[0])
  {
  }

  function Print(e: Node, level: nat): (ts: seq<Token>)
    requires Parsed(e)
    ensures ts != []
    decreases e, 1
  {
    if Level(e) < level then [Open] + Bare(e) + [Close] else Bare(e)
  }

  function Bare(e: Node): (ts: seq<Token>)
    requires Parsed(e)
    ensures ts != []
    decreases e, 0
  {
    match e
    case Num(v) => [Number(v)]
    case Sym(s) => [Symbol(s)]
    case App(op, args) =>
      if op == Neg then [Minus] + Print(args[0], RightLevel(op))
      else Print(args[0], LeftLevel(op)) + [Sign(op)] + Print(args[1], RightLevel(op))
  }

  /** What may follow a tree printed at `level` without being drawn into it. */
  predicate Separates(level: nat, rest: seq<Token>)
  {
    NextLevel(rest) <= (if level <= 2 then level else level - 1)
  }

  lemma ClimbStops(minimum: nat, left: Node, rest: seq<Token>)
    requires NextLevel(rest) < minimum
    ensures Climb(minimum, left, rest) == Done(left, rest)
  {
    NextLevelIsPower(rest);
  }

  /** After a printed tree the parser is where it would be having read that tree as one operand. */
  lemma {:induction false} ParsePrint(minimum: nat, e: Node, level: nat, rest: seq<Token>)
    requires Parsed(e) && minimum <= level <= 4 && Separates(level, rest)
    ensures ParseFrom(minimum, Print(e, level) + rest) == Climb(minimum, e, rest)
    decreases e, 2
  {
    hide *;
    PrintUnfold(e, level);
    if Level(e) < level {
      CloseSeparates(rest);
      ParseBare(0, e, 0, [Close] + rest);
      ClimbStops(0, e, [Close] + rest);
      BracketsFold(minimum, Bare(e), e, rest);
      assert Print(e, level) + rest == [Open] + (Bare(e) + ([Close] + rest));
    } else {
      ParseBare(minimum, e, level, rest);
    }
  }

  lemma PrintUnfold(e: Node, level: nat)
    requires Parsed(e)
    ensures Print(e, level) == if Level(e) < level then [Open] + Bare(e) + [Close] else Bare(e)
  {
    hide Bare, Parsed, Level;
  }

  lemma CloseSeparates(rest: seq<Token>)
    ensures NextLevel([Close] + rest) == -1 && Separates(0, [Close] + rest)
  {
  }

  /** A bracketed expression is one operand. */
  lemma BracketsFold(minimum: nat, inside: seq<Token>, e: Node, rest: seq<Token>)
    requires ParseFrom(0, inside + ([Close] + rest)) == Done(e, [Close] + rest)
    ensures ParseFrom(minimum, [Open] + (inside + ([Close] + rest))) == Climb(minimum, e, rest)
  {
    hide Climb;
    var ts := [Open] + (inside + ([Close] + rest));
    assert ts[1..] == inside + ([Close] + rest);
    assert ([Close] + rest)[1..] == rest;
    assert Operand(ts) == Done(e, rest);
  }

  lemma {:induction false} ParseBare(minimum: nat, e: Node, level: nat, rest: seq<Token>)
    requires Parsed(e) && minimum <= level <= Level(e) && Separates(level, rest)
    ensures ParseFrom(minimum, Bare(e) + rest) == Climb(minimum, e, rest)
    decreases e, 1
  {
    hide *;
    if !e.App? {
      LeafReads(minimum, e, rest);
    } else if e.op == Neg {
      NegationUnfold(e, level, rest);
      ParsePrint(3, e.args[0], 3, rest);
      ClimbStops(3, e.args[0], rest);
      NegationFolds(minimum, Print(e.args[0], 3) + rest, e.args[0], rest);
      assert Bare(e) + rest == [Minus] + (Print(e.args[0], 3) + rest);
    } else {
      ParseBinary(minimum, e, level, rest);
    }
  }

  lemma LeafReads(minimum: nat, e: Node, rest: seq<Token>)
    requires !e.App?
    ensures ParseFrom(minimum, Bare(e) + rest) == Climb(minimum, e, rest)
  {
    hide Climb;
    var ts := Bare(e) + rest;
    assert ts[1..] == rest;
    assert Operand(ts) == Done(e, rest);
  }

  lemma NegationUnfold(e: Node, level: nat, rest: seq<Token>)
    requires Parsed(e) && e.App? && e.op == Neg && level <= Level(e) && Separates(level, rest)
    ensures |e.args| == 1 && Parsed(e.args[0]) && e == App(Neg, [e.args[0]])
    ensures Bare(e) == [Minus] + Print(e.args[0], 3)
    ensures Separates(3, rest) && NextLevel(rest) < 3
  {
    hide Print;
    assert e.args == [e.args[0]];
  }

  lemma {:induction false} ParseBinary(minimum: nat, e: Node, level: nat, rest: seq<Token>)
    requires Parsed(e) && e.App? && e.op != Neg
    requires minimum <= level <= Level(e) && Separates(level, rest)
    ensures ParseFrom(minimum, Bare(e) + rest) == Climb(minimum, e, rest)
    decreases e, 0
  {
    hide *;
    BinaryUnfold(e, minimum, level, rest);
    TablesAgree(e.op);
    var op, left, right, sign := e.op, e.args[0], e.args[1], Sign(e.op);
    var first, second := Print(left, LeftLevel(op)), Print(right, RightLevel(op));
    ParsePrint(RightLevel(op), right, RightLevel(op), rest);
    ClimbStops(RightLevel(op), right, rest);
    SignSeparates(op, second + rest);
    ParsePrint(minimum, left, LeftLevel(op), [sign] + (second + rest));
    ClimbFolds(minimum, left, sign, second + rest, right, rest);
    assert Bare(e) + rest == first + ([sign] + (second + rest));
  }

  lemma BinaryUnfold(e: Node, minimum: nat, level: nat, rest: seq<Token>)
    requires Parsed(e) && e.App? && e.op != Neg
    requires minimum <= level <= Level(e) && Separates(level, rest)
    ensures |e.args| == 2 && Parsed(e.args[0]) && Parsed(e.args[1]) && e == App(e.op, [e.args[0], e.args[1]])
    ensures Bare(e) == Print(e.args[0], LeftLevel(e.op)) + [Sign(e.op)] + Print(e.args[1], RightLevel(e.op))
    ensures minimum <= LeftLevel(e.op) <= 4 && RightLevel(e.op) <= 4 && minimum <= OwnLevel(e.op)
    ensures Separates(RightLevel(e.op), rest) && NextLevel(rest) < RightLevel(e.op)
  {
    hide Print;
    assert e.args == [e.args[0], e.args[1]];
  }

  lemma SignSeparates(op: Op, rest: seq<Token>)
    requires op != Neg
    ensures Separates(LeftLevel(op), [Sign(op)] + rest)
  {
  }

  lemma NegationFolds(minimum: nat, operand: seq<Token>, inner: Node, rest: seq<Token>)
    requires ParseFrom(3, operand) == Done(inner, rest)
    ensures ParseFrom(minimum, [Minus] + operand) == Climb(minimum, App(Neg, [inner]), rest)
  {
    assert ([Minus] + operand)[1..] == operand;
  }

  lemma ClimbFolds(minimum: nat, left: Node, sign: Token, operand: seq<Token>, right: Node, rest: seq<Token>)
    requires Power(sign) > 0 && Power(sign) >= minimum
    requires ParseFrom(RightMinimum(sign), operand) == Done(right, rest)
    ensures Climb(minimum, left, [sign] + operand) == Climb(minimum, App(Binary(sign), [left, right]), rest)
  {
    assert ([sign] + operand)[1..] == operand;
  }

  /** Parsing what was printed returns the tree, for every tree. */
  lemma RoundTrip(e: Node)
    requires Parsed(e)
    ensures Ast(Print(e, 0)) == Some(e)
  {
    assert Print(e, 0) + [] == Print(e, 0);
    ParsePrint(0, e, 0, []);
  }

  /** Trees that print alike are the same tree. */
  lemma PrintIsInjective(a: Node, b: Node)
    requires Parsed(a) && Parsed(b) && Print(a, 0) == Print(b, 0)
    ensures a == b
  {
    RoundTrip(a);
    RoundTrip(b);
  }

  /* ---- the printed form is the shortest ---- */

  /** `used` tokens are enough to print `e` at `level`. */
  ghost predicate Affords(used: int, e: Node, level: nat)
    requires Parsed(e)
  {
    |Print(e, level)| <= used
  }

  /** Every successful parse read at least as many tokens as printing its tree takes. */
  lemma {:induction false} ParseReads(minimum: nat, ts: seq<Token>)
    requires minimum <= 3
    requires ParseFrom(minimum, ts).Done?
    ensures var r := ParseFrom(minimum, ts);
            && Parsed(r.node)
            && NextLevel(r.rest) < minimum
            && Affords(|ts| - |r.rest|, r.node, minimum)
    decreases |ts|, 2
  {
    OperandReads(ts);
    var head := Operand(ts);
    ClimbReads(minimum, head.node, head.rest, |ts| - |head.rest|);
  }

  lemma {:induction false} OperandReads(ts: seq<Token>)
    requires ts != [] && Operand(ts).Done?
    ensures var r := Operand(ts);
            && Parsed(r.node)
            && Affords(|ts| - |r.rest|, r.node, 3)
            && (NextLevel(r.rest) == 3 ==> Affords(|ts| - |r.rest|, r.node, 4))
    decreases |ts|, 0
  {
    match ts[0]
    case Plus => ParseReads(3, ts[1..]);
    case Minus => ParseReads(3, ts[1..]);
    case Open => ParseReads(0, ts[1..]);
    case _ =>
  }

  lemma {:induction false} ClimbReads(minimum: nat, left: Node, ts: seq<Token>, used: nat)
    requires minimum <= 3 && Parsed(left)
    requires Climb(minimum, left, ts).Done?
    requires Affords(used, left, minimum)
    requires NextLevel(ts) > 0 ==> Affords(used, left, LeftLevel(Binary(ts[0])))
    ensures var r := Climb(minimum, left, ts);
            && Parsed(r.node)
            && NextLevel(r.rest) < minimum
            && Affords(used + |ts| - |r.rest|, r.node, minimum)
    decreases |ts|, 1
  {
    if ts != [] && Power(ts[0]) >= minimum {
      var operand := RightMinimum(ts[0]);
      ParseReads(operand, ts[1..]);
      var right := ParseFrom(operand, ts[1..]);
      var op := Binary(ts[0]);
      var next := App(op, [left, right.node]);
      assert |Bare(next)| == |Print(left, LeftLevel(op))| + 1 + |Print(right.node, RightLevel(op))|;
      ClimbReads(minimum, next, right.rest, used + |ts| - |right.rest|);
    }
  }

  /** No token list that parses to a tree is shorter than the printed form of that tree. */
  lemma PrintIsShortest(ts: seq<Token>)
    requires Ast(ts).Some?
    ensures Parsed(Ast(ts).value)
    ensures |Print(Ast(ts).value, 0)| <= |ts|
  {
    ParseReads(0, ts);
  }
}
