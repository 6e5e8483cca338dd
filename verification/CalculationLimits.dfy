/**
 The limits of the calculation check: numbers far from a finite value are refused, and a written-out
 rule is accepted exactly if its inputs are not negative.
 */
module CalculationLimits {
  import opened Basics
  import opened FormulaSyntax
  import opened FormulaCanonical
  import opened FormulaSemantics
  import opened FormulaSubstitution
  import opened Calculation
  import FormulaPrinting

  /** A rule with two sides that has a value has a finite one; `build_numeric_rules` makes no other rules. */
  ghost predicate FiniteRule(rule: Rule)
  {
    var sides := Sides(rule.formula);
    sides.Some? && |sides.value| == 2 ==>
      var value := Evaluate(sides.value[1], rule.bindings);
      value.Some? ==> value.value.Finite?
  }

  /** The side has a finite value within the tolerance of `v`. */
  ghost predicate Near(side: Node, v: real)
  {
    exists u: real :: Evaluate(side, map[]) == Some(Finite(u)) && Absolute(u - v) <= Allowance(v)
  }

  lemma DisplayedIsNear(side: Node, v: real)
    requires Displays(side, Finite(v))
    ensures Near(side, v)
  {
    hide Evaluate, Absolute, Allowance;
    assert Evaluate(side, map[]) == Some(Finite(Evaluate(side, map[]).value.v));
  }

  /** Rules with finite values support a calculation only if every displayed side is within the tolerance. */
  lemma FiniteRulesAreTight(formula: Formula, rules: seq<Rule>, sources: seq<Source>, inputs: Inputs)
    requires Sides(formula).Some? && forall rule | rule in rules :: FiniteRule(rule)
    requires Support(Equation(formula).value, rules, sources, inputs) != []
    ensures exists rule: Rule, v: real | rule in rules ::
              && Justifies(rule, Sides(formula).value, sources, inputs)
              && Evaluate(Sides(rule.formula).value[1], rule.bindings) == Some(Finite(v))
              && forall i | 1 <= i < |Sides(formula).value| :: Near(Sides(formula).value[i], v)
  {
    hide Support, Near, Displays, Evidenced, Evaluate, Cites;
    var answer := Sides(formula).value;
    SupportIsJustified(formula, rules, sources, inputs);
    var rule :| rule in rules && Justifies(rule, answer, sources, inputs);
    assert FiniteRule(rule);
    var v := Evaluate(Sides(rule.formula).value[1], rule.bindings).value.v;
    forall i | 1 <= i < |answer| ensures Near(answer[i], v) {
      DisplayedIsNear(answer[i], v);
    }
  }

  /* ---- rules that raise ---- */

  /** A rule that raises ends the search: what comes after it supports nothing. */
  lemma {:induction false} RaisingRuleSilences(answer: seq<Node>, before: seq<Rule>, rule: Rule, after: seq<Rule>,
                                               sources: seq<Source>, inputs: Inputs)
    requires |answer| >= 2 && TryRule(answer, rule, sources, inputs) == Raise
    requires forall x | x in before :: TryRule(answer, x, sources, inputs) == Reject
    ensures Support(answer, before + ([rule] + after), sources, inputs) == []
  {
    hide TryRule;
    var all := before + ([rule] + after);
    if before == [] {
      assert all[0] == rule;
    } else {
      RaisingRuleSilences(answer, before[1..], rule, after, sources, inputs);
      assert all[0] == before[0] && all[1..] == before[1..] + ([rule] + after);
    }
  }

  ghost const QUOTIENT := App(Div, [Num(1.0), Sym("x")])

  /** y = 1 / x, with x given as zero. */
  ghost function QuotientRule(): Rule
  {
    Rule(PrintEquation(Sym("y"), QUOTIENT), ["E1"], map["x" := 0.0])
  }

  /** Division by zero raises, so this rule supports nothing and silences all rules after it. */
  lemma QuotientByZeroSilences(shown: real, after: seq<Rule>)
    ensures Support([Sym("y"), Num(shown)], [QuotientRule()] + after,
                    [Source("E1", QuotientRule().formula, false)], {("x", 0.0)}) == []
  {
    var sources, inputs: Inputs := [Source("E1", QuotientRule().formula, false)], {("x", 0.0)};
    QuotientRaises(shown);
    hide Support, QuotientRule;
    RaisingRuleSilences([Sym("y"), Num(shown)], [], QuotientRule(), after, sources, inputs);
    assert [] + ([QuotientRule()] + after) == [QuotientRule()] + after;
  }

  /** A cited rule for the symbol whose body is undefined raises, whatever is displayed. */
  lemma UndefinedRuleRaises(answer: seq<Node>, rule: Rule, body: Node, source: Source, sources: seq<Source>, inputs: Inputs)
    requires |answer| >= 2 && answer[0].Sym? && Sides(rule.formula) == Some([answer[0], body])
    requires source in sources && Cites(rule, source) && Evidenced(rule.bindings, inputs)
    requires Evaluate(body, rule.bindings).None?
    ensures TryRule(answer, rule, sources, inputs) == Raise
  {
    hide Evaluate, Cites, Sides, TrySides, Evidenced;
    CanonicalKeepsValue(body, rule.bindings);
    assert Equation(rule.formula) == Some(CanonicalAll([answer[0], body]));
  }

  lemma QuotientRaises(shown: real)
    ensures TryRule([Sym("y"), Num(shown)], QuotientRule(), [Source("E1", QuotientRule().formula, false)], {("x", 0.0)}) == Raise
  {
    var rule, source := QuotientRule(), Source("E1", QuotientRule().formula, false);
    PrintedSides(Sym("y"), QUOTIENT);
    FormulaMatchesItself(rule.formula);
    QuotientIsUndefined();
    ZeroIsEvidenced();
    hide Evaluate, FormulaRelation, Sides, PrintEquation, TryRule, Evidenced;
    assert Cites(rule, source);
    UndefinedRuleRaises([Sym("y"), Num(shown)], rule, QUOTIENT, source, [source], {("x", 0.0)});
  }

  lemma QuotientIsUndefined()
    ensures Evaluate(QUOTIENT, map["x" := 0.0]).None?
  {
  }

  /* ---- signs of numbers ---- */

  /** The numbers of a tree are not negative. */
  ghost predicate NonNegative(e: Node)
  {
    match e
    case Num(v) => v >= 0.0
    case Sym(_) => true
    case App(_, args) => forall i | 0 <= i < |args| :: NonNegative(args[i])
  }

  ghost predicate Uses(e: Node, key: string)
  {
    match e
    case Num(_) => false
    case Sym(s) => s == key
    case App(_, args) => exists i | 0 <= i < |args| :: Uses(args[i], key)
  }

  ghost predicate UnsignedAll(ts: seq<Token>)
  {
    forall t | t in ts && t.Number? :: t.value >= 0.0
  }

  ghost predicate UnsignedOutcome(r: Outcome)
  {
    r.Done? ==> NonNegative(r.node) && UnsignedAll(r.rest)
  }

  /** What the parser reads has no negative numbers. */
  lemma {:induction false} UnsignedParse(minimum: nat, ts: seq<Token>)
    requires UnsignedAll(ts)
    ensures UnsignedOutcome(ParseFrom(minimum, ts))
    decreases |ts|, 2
  {
    if ts != [] {
      UnsignedOperand(ts);
      var head := Operand(ts);
      if head.Done? {
        UnsignedClimb(minimum, head.node, head.rest);
      }
    }
  }

  lemma {:induction false} UnsignedOperand(ts: seq<Token>)
    requires ts != [] && UnsignedAll(ts)
    ensures UnsignedOutcome(Operand(ts))
    decreases |ts|, 0
  {
    assert ts[0] in ts;
    match ts[0]
    case Plus | Minus => UnsignedParse(3, ts[1..]);
    case Open => UnsignedParse(0, ts[1..]);
    case _ =>
  }

  lemma {:induction false} UnsignedClimb(minimum: nat, left: Node, ts: seq<Token>)
    requires NonNegative(left) && UnsignedAll(ts)
    ensures UnsignedOutcome(Climb(minimum, left, ts))
    decreases |ts|, 1
  {
    if ts != [] && Power(ts[0]) >= minimum {
      UnsignedParse(RightMinimum(ts[0]), ts[1..]);
      var right := ParseFrom(RightMinimum(ts[0]), ts[1..]);
      if right.Done? {
        UnsignedClimb(minimum, App(Binary(ts[0]), [left, right.node]), right.rest);
      }
    }
  }

  lemma {:induction false} StepKeepsSign(a: Node, b: Node)
    requires Step(a, b)
    ensures NonNegative(a) <==> NonNegative(b)
    decreases a
  {
    if Commutes(a, b) {
      PairOf(a);
      PairSigns(a.op, a.args[0], a.args[1]);
      PairSigns(a.op, a.args[1], a.args[0]);
    } else if Associates(a, b) {
      AssociateSigns(a, b);
    } else if Associates(b, a) {
      AssociateSigns(b, a);
    } else {
      var i :| 0 <= i < |a.args| && Step(a.args[i], b.args[i]) && b.args == a.args[i := b.args[i]];
      StepKeepsSign(a.args[i], b.args[i]);
    }
  }

  lemma PairSigns(op: Op, x: Node, y: Node)
    ensures NonNegative(App(op, [x, y])) <==> NonNegative(x) && NonNegative(y)
  {
    var e := App(op, [x, y]);
    assert e.args[0] == x && e.args[1] == y;
  }

  lemma PairOf(e: Node)
    requires e.App? && |e.args| == 2
    ensures e == App(e.op, [e.args[0], e.args[1]])
  {
    assert e.args == [e.args[0], e.args[1]];
  }

  lemma AssociateSigns(a: Node, b: Node)
    requires Associates(a, b)
    ensures NonNegative(a) <==> NonNegative(b)
  {
    var op, x, y, z := a.op, a.args[0].args[0], a.args[0].args[1], a.args[1];
    PairOf(a);
    PairOf(a.args[0]);
    hide NonNegative, Associates;
    PairSigns(op, App(op, [x, y]), z);
    PairSigns(op, x, y);
    PairSigns(op, x, App(op, [y, z]));
    PairSigns(op, y, z);
  }

  lemma {:induction false} ChainKeepsSign(p: seq<Node>)
    requires FormulaCanonical.Chain(p)
    ensures NonNegative(p[0]) <==> NonNegative(p[|p| - 1])
    decreases |p|
  {
    if |p| > 1 {
      var q := p[1..];
      assert Step(p[0], p[1]);
      forall i | 0 <= i < |q| - 1 ensures Step(q[i], q[i + 1]) {
        assert Step(p[i + 1], p[i + 2]);
      }
      StepKeepsSign(p[0], p[1]);
      ChainKeepsSign(q);
    }
  }

  lemma RearrangedKeepsSign(a: Node, b: Node)
    requires Rearranged(a, b)
    ensures NonNegative(a) <==> NonNegative(b)
  {
    var p :| FormulaCanonical.Chain(p) && p[0] == a && p[|p| - 1] == b;
    ChainKeepsSign(p);
  }

  lemma {:induction false} PluggedIsNegative(e: Node, bindings: Bindings, key: string)
    requires Uses(e, key) && key in bindings && bindings[key] < 0.0
    ensures !NonNegative(Plug(e, bindings))
  {
    if e.App? {
      var i :| 0 <= i < |e.args| && Uses(e.args[i], key);
      PluggedIsNegative(e.args[i], bindings, key);
      assert Plug(e, bindings).args[i] == Plug(e.args[i], bindings);
    }
  }

  /* ---- negative inputs ---- */

  /** Numbers are read without a sign. */
  ghost predicate Unsigned(f: Formula)
  {
    forall x | x in f && x.Tok? && x.token.Number? :: x.token.value >= 0.0
  }

  lemma {:induction false} UnsignedTokens(part: Formula)
    requires Unsigned(part) && Tokens(part).Some?
    ensures UnsignedAll(Tokens(part).value)
  {
    if part != [] {
      UnsignedTokens(part[1..]);
    }
  }

  lemma {:induction false} UnsignedParts(f: Formula)
    requires Unsigned(f)
    ensures forall part | part in Split(f) :: Unsigned(part)
  {
    if f != [] {
      UnsignedParts(f[1..]);
      var rest := Split(f[1..]);
      assert rest[0] in rest;
      assert forall x | x in [f[0]] + rest[0] :: x == f[0] || x in rest[0];
    }
  }

  lemma {:induction false} UnsignedSides(parts: seq<Formula>)
    requires SidesOf(parts).Some? && forall part | part in parts :: Unsigned(part)
    ensures forall e | e in SidesOf(parts).value :: NonNegative(e)
  {
    if parts != [] {
      UnsignedTokens(parts[0]);
      UnsignedParse(0, Tokens(parts[0]).value);
      UnsignedSides(parts[1..]);
    }
  }

  /**
   A rule with a negative input that its body uses supports no spelled-out calculation, however it is
   written: the input is put in as a negative number, which no displayed side has.
   */
  lemma NegativeInputIsNeverSpelledOut(formula: Formula, rule: Rule, key: string, sources: seq<Source>, inputs: Inputs)
    requires Sides(formula).Some? && Unsigned(formula) && Justifies(rule, Sides(formula).value, sources, inputs)
    requires key in rule.bindings && rule.bindings[key] < 0.0 && Uses(Sides(rule.formula).value[1], key)
    ensures Sides(formula).value[1].Num?
  {
    var answer, body := Sides(formula).value, Sides(rule.formula).value[1];
    if !answer[1].Num? {
      UnsignedParts(formula);
      UnsignedSides(Split(formula));
      assert answer[1] in answer;
      RearrangedKeepsSign(answer[1], Plug(body, rule.bindings));
      PluggedIsNegative(body, rule.bindings, key);
      assert false;
    }
  }

  lemma {:induction false} PluggedIsNonNegative(e: Node, bindings: Bindings)
    requires NonNegative(e) && forall key | key in bindings && Uses(e, key) :: bindings[key] >= 0.0
    ensures NonNegative(Plug(e, bindings))
  {
    if e.App? {
      forall i | 0 <= i < |e.args| ensures NonNegative(Plug(e, bindings).args[i]) {
        forall key | key in bindings && Uses(e.args[i], key) ensures bindings[key] >= 0.0 {
          assert Uses(e, key);
        }
        PluggedIsNonNegative(e.args[i], bindings);
      }
    }
  }

  lemma {:induction false} PrintIsUnsigned(e: Node, level: nat)
    requires Parsed(e) && NonNegative(e)
    ensures UnsignedAll(FormulaPrinting.Print(e, level))
    decreases e, 1
  {
    BareIsUnsigned(e);
  }

  lemma {:induction false} BareIsUnsigned(e: Node)
    requires Parsed(e) && NonNegative(e)
    ensures UnsignedAll(FormulaPrinting.Bare(e))
    decreases e, 0
  {
    if e.App? {
      hide FormulaPrinting.Print;
      if e.op == Neg {
        PrintIsUnsigned(e.args[0], FormulaPrinting.RightLevel(Neg));
      } else {
        PrintIsUnsigned(e.args[0], FormulaPrinting.LeftLevel(e.op));
        PrintIsUnsigned(e.args[1], FormulaPrinting.RightLevel(e.op));
      }
    }
  }

  lemma LexemesAreUnsigned(ts: seq<Token>)
    requires UnsignedAll(ts)
    ensures Unsigned(Lexemes(ts))
  {
    forall x | x in Lexemes(ts) && x.Tok? && x.token.Number? ensures x.token.value >= 0.0 {
      var i :| 0 <= i < |ts| && Lexemes(ts)[i] == x;
      assert ts[i] in ts;
    }
  }

  lemma PrintedEquationIsUnsigned(a: Node, b: Node)
    requires Parsed(a) && Parsed(b) && NonNegative(a) && NonNegative(b)
    ensures Unsigned(PrintEquation(a, b))
  {
    PrintIsUnsigned(a, 0);
    PrintIsUnsigned(b, 0);
    LexemesAreUnsigned(FormulaPrinting.Print(a, 0));
    LexemesAreUnsigned(FormulaPrinting.Print(b, 0));
  }

  /** The rule with the numbers written in has the value of the rule. */
  lemma PlugKeepsValue(e: Node, bindings: Bindings)
    ensures Evaluate(Plug(e, bindings), map[]) == Evaluate(e, bindings)
  {
    CanonicalKeepsValue(Plug(e, bindings), map[]);
    SubstituteIsPlug(e, bindings);
    SubstitutionLemma(Canonical(e), bindings, map[]);
    assert map[] + bindings == bindings;
    CanonicalKeepsValue(e, bindings);
  }

  /** The calculation shows something other than a number first. */
  ghost predicate SpellsOut(formula: Formula)
  {
    Unsigned(formula) && Sides(formula).Some? && !Sides(formula).value[1].Num?
  }

  /**
   A cited rule for one symbol with evidenced inputs, whose body is more than a number or a symbol,
   has a finite value and uses no negative input.
   */
  ghost predicate MayBeSpelledOut(rule: Rule, sources: seq<Source>, inputs: Inputs)
  {
    var sides := Sides(rule.formula);
    && Proven(rule, sources) != []
    && sides.Some? && |sides.value| == 2 && sides.value[0].Sym? && Evidenced(rule.bindings, inputs)
    && sides.value[1].App?
    && Evaluate(sides.value[1], rule.bindings).Some? && Evaluate(sides.value[1], rule.bindings).value.Finite?
    && forall key | key in rule.bindings && Uses(sides.value[1], key) :: rule.bindings[key] >= 0.0
  }

  lemma RearrangedKeepsKind(a: Node, b: Node)
    requires Rearranged(a, b) && !b.App?
    ensures a == b
  {
    hide Step;
    var p :| FormulaCanonical.Chain(p) && p[0] == a && p[|p| - 1] == b;
    if |p| > 1 {
      StepNeedsApp(p[|p| - 2], p[|p| - 1]);
    }
  }

  lemma StepNeedsApp(a: Node, b: Node)
    requires Step(a, b)
    ensures b.App?
  {
  }

  /** What the first side of an accepted calculation needs. */
  lemma SpelledOutNeeds(formula: Formula, rule: Rule, sources: seq<Source>, inputs: Inputs)
    requires SpellsOut(formula) && Justifies(rule, Sides(formula).value, sources, inputs)
    ensures MayBeSpelledOut(rule, sources, inputs)
  {
    var answer, body := Sides(formula).value, Sides(rule.formula).value[1];
    if !body.App? {
      RearrangedKeepsKind(answer[1], Plug(body, rule.bindings));
    }
    SidesAreParsed(Split(formula));
    SpelledOutSideIsExact(rule, answer, sources, inputs);
    assert Displays(answer[1], Evaluate(body, rule.bindings).value);
    forall key | key in rule.bindings && Uses(body, key) ensures rule.bindings[key] >= 0.0 {
      if rule.bindings[key] < 0.0 {
        NegativeInputIsNeverSpelledOut(formula, rule, key, sources, inputs);
      }
    }
  }

  /** The rule printed with its inputs written in is accepted. */
  lemma PrintedRuleIsAccepted(rule: Rule, sources: seq<Source>, inputs: Inputs) returns (formula: Formula)
    requires Unsigned(rule.formula) && MayBeSpelledOut(rule, sources, inputs)
    ensures SpellsOut(formula) && Justifies(rule, Sides(formula).value, sources, inputs)
  {
    var head, body := Sides(rule.formula).value[0], Sides(rule.formula).value[1];
    var plugged := Plug(body, rule.bindings);
    UnsignedParts(rule.formula);
    UnsignedSides(Split(rule.formula));
    SidesAreParsed(Split(rule.formula));
    assert head in Sides(rule.formula).value && body in Sides(rule.formula).value;
    PluggedIsNonNegative(body, rule.bindings);
    PlugIsParsed(body, rule.bindings);
    PlugKeepsValue(body, rule.bindings);
    PrintedEquationIsUnsigned(head, plugged);
    PrintedSides(head, plugged);
    RearrangedSame(plugged);
    formula := PrintEquation(head, plugged);
    PluggedIsJustified(rule, sources, inputs);
  }

  lemma PluggedIsJustified(rule: Rule, sources: seq<Source>, inputs: Inputs)
    requires MayBeSpelledOut(rule, sources, inputs)
    ensures var sides := Sides(rule.formula).value;
            Justifies(rule, [sides[0], Plug(sides[1], rule.bindings)], sources, inputs)
  {
    var head, body := Sides(rule.formula).value[0], Sides(rule.formula).value[1];
    var plugged, value := Plug(body, rule.bindings), Evaluate(body, rule.bindings).value;
    PlugKeepsValue(body, rule.bindings);
    RearrangedSame(plugged);
    assert Displays(plugged, value);
    forall i | 1 <= i < |[head, plugged]| ensures Displays([head, plugged][i], value) {
      assert i == 1;
    }
  }

  /**
   Exactly when some spelled-out calculation is accepted for a rule: it is cited, has its inputs and
   a finite value, and uses no negative input.
   */
  lemma SpelledOutIff(rule: Rule, sources: seq<Source>, inputs: Inputs)
    requires Unsigned(rule.formula)
    ensures (exists formula :: SpellsOut(formula) && TryRule(Equation(formula).value, rule, sources, inputs) == Accept)
       <==> MayBeSpelledOut(rule, sources, inputs)
  {
    hide TryRule, Justifies, MayBeSpelledOut, Unsigned;
    if MayBeSpelledOut(rule, sources, inputs) {
      var formula := PrintedRuleIsAccepted(rule, sources, inputs);
      TryRuleDecides(formula, rule, sources, inputs);
    }
    forall formula | SpellsOut(formula) && TryRule(Equation(formula).value, rule, sources, inputs) == Accept
      ensures MayBeSpelledOut(rule, sources, inputs)
    {
      TryRuleDecides(formula, rule, sources, inputs);
      SpelledOutNeeds(formula, rule, sources, inputs);
    }
  }
}
