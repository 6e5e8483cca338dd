/**
 Tokens, expression trees and the operator-precedence parser of grounding_verifier.py.

 A tree is the tuple the source builds: a number, a symbol, or an operator applied to a list of
 children.  The parser produces one child under `neg` and two under every other operator; the
 canonical form later flattens + and * into longer lists.
 */
module FormulaSyntax {
  import opened Basics

  datatype Op = Neg | Add | Sub | Mul | Div | Pow

  datatype Token =
    | Plus | Minus | Star | Slash | Caret
    | Open | Close
    | Number(value: real)
    | Symbol(name: string)

  datatype Node =
    | Num(value: real)
    | Sym(name: string)
    | App(op: Op, args: seq<Node>)

  /** The trees the parser builds. */
  ghost predicate Parsed(e: Node)
  {
    e.App? ==>
      if e.op == Neg then |e.args| == 1 && Parsed(e.args[0])
      else |e.args| == 2 && Parsed(e.args[0]) && Parsed(e.args[1])
  }

  /** The binding power of an operator token; every other token has power -1. */
  function Power(t: Token): int
  {
    match t
    case Plus | Minus => 1
    case Star | Slash => 2
    case Caret => 3
    case _ => -1
  }

  function Binary(t: Token): Op
    requires Power(t) > 0
  {
    match t
    case Plus => Add
    case Minus => Sub
    case Star => Mul
    case Slash => Div
    case Caret => Pow
  }

  /** The minimum power with which the operand to the right of an operator is parsed. */
  function RightMinimum(t: Token): nat
    requires Power(t) > 0
  {
    if t == Caret then 3 else Power(t) + 1
  }

  datatype Outcome = Fail | Done(node: Node, rest: seq<Token>)

  /** What parsing a prefix of `ts` yields: the tree and the tokens left over, or a failure. */
  function ParseFrom(minimum: nat, ts: seq<Token>): (r: Outcome)
    ensures r.Done? ==> |r.rest| < |ts|
    decreases |ts|, 2
  {
    if ts == [] then Fail else
    var head := Operand(ts);
    if head.Fail? then Fail else Climb(minimum, head.node, head.rest)
  }

  /** The first operand: a signed operand, a bracketed expression, a number or a symbol. */
  function Operand(ts: seq<Token>): (r: Outcome)
    requires ts != []
    ensures r.Done? ==> |r.rest| < |ts|
    decreases |ts|, 0
  {
    match ts[0]
    case Plus => ParseFrom(3, ts[1..])
    case Minus =>
      var inner := ParseFrom(3, ts[1..]);
      if inner.Fail? then Fail else Done(App(Neg, [inner.node]), inner.rest)
    case Open =>
      var inner := ParseFrom(0, ts[1..]);
      if inner.Fail? || inner.rest == [] || inner.rest[0] != Close then Fail
      else Done(inner.node, inner.rest[1..])
    case Number(v) => Done(Num(v), ts[1..])
    case Symbol(s) => Done(Sym(s), ts[1..])
    case _ => Fail
  }

  /** The operators that bind at least as tightly as `minimum`, folded onto `left`. */
  function Climb(minimum: nat, left: Node, ts: seq<Token>): (r: Outcome)
    ensures r.Done? ==> |r.rest| <= |ts|
    decreases |ts|, 1
  {
    if ts == [] || Power(ts[0]) < minimum then Done(left, ts) else
    var right := ParseFrom(RightMinimum(ts[0]), ts[1..]);
    if right.Fail? then Fail
    else Climb(minimum, App(Binary(ts[0]), [left, right.node]), right.rest)
  }

  /** A complete parse: nothing may remain. */
  function Ast(ts: seq<Token>): Option<Node>
  {
    var r := ParseFrom(0, ts);
    if r.Done? && r.rest == [] then Some(r.node) else None
  }

  /** The parser object: a token list and a position that every call advances. */
  class Expression {
    const tokens: seq<Token>
    var position: nat

    ghost predicate Valid()
      reads this
    {
      position <= |tokens|
    }

    constructor (tokens: seq<Token>)
      ensures this.tokens == tokens && position == 0 && Valid()
    {
      this.tokens := tokens;
      position := 0;
    }

    /** The tokens still to be read. */
    ghost function Remaining(): seq<Token>
      requires Valid()
      reads this
    {
      tokens[position..]
    }

    /** What a parsing method promises: the outcome, with the position just past what was parsed. */
    ghost predicate Yields(outcome: Outcome, r: Option<Node>)
      reads this
    {
      && Valid()
      && match outcome
         case Fail => r == None
         case Done(node, rest) => r == Some(node) && Remaining() == rest
    }

    /** Reads one token and moves past it. */
    method Next() returns (token: Token)
      requires Valid() && position < |tokens|
      modifies this
      ensures Valid() && position == old(position) + 1
      ensures old(Remaining()) == [token] + Remaining()
    {
      token := tokens[position];
      position := position + 1;
    }

    /** The first operand of an expression, with its sign or brackets. */
    method ParseOperand() returns (r: Option<Node>)
      requires Valid() && position < |tokens|
      modifies this
      ensures position > old(position)
      ensures Yields(Operand(old(Remaining())), r)
      decreases |tokens| - position, 0
    {
      var token := Next();
      match token {
        case Plus =>
          r := Parse(3);
        case Minus =>
          r := Parse(3);
          r := if r.None? then None else Some(App(Neg, [r.value]));
        case Open =>
          r := Parse(0);
          if r.None? || position >= |tokens| || tokens[position] != Close {
            return None;
          }
          var close := Next();
        case Number(v) => r := Some(Num(v));
        case Symbol(s) => r := Some(Sym(s));
        case _ => r := None;
      }
    }

    /** Parses from the current position, folding operators while they bind tightly enough. */
    method Parse(minimum: nat) returns (r: Option<Node>)
      requires Valid()
      modifies this
      ensures position >= old(position)
      ensures Yields(ParseFrom(minimum, old(Remaining())), r)
      decreases |tokens| - position, 1
    {
      if position >= |tokens| {
        return None;
      }
      ghost var outcome, start := ParseFrom(minimum, Remaining()), position;
      r := ParseOperand();
      if r.None? {
        return;
      }
      while position < |tokens| && Power(tokens[position]) >= minimum
        invariant Valid() && position > start && r.Some?
        invariant outcome == Climb(minimum, r.value, Remaining())
      {
        ghost var before := Remaining();
        var operator := Next();
        assert before[0] == operator && before[1..] == Remaining();
        var right := Parse(RightMinimum(operator));
        if right.None? {
          return None;
        }
        r := Some(App(Binary(operator), [r.value, right.value]));
      }
    }
  }

  /** Parses a whole token list through the parser object. */
  method ParseAll(tokens: seq<Token>) returns (r: Option<Node>)
    ensures r == Ast(tokens)
  {
    var parser := new Expression(tokens);
    assert parser.Remaining() == tokens;
    var result := parser.Parse(0);
    if result.None? || parser.position != |parser.tokens| {
      return None;
    }
    return result;
  }
}
