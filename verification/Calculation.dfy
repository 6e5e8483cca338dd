/**
 Structural comparison of equations and the calculation check of grounding_verifier.py.

 A formula is a list of lexemes after notation has been normalised: tokens, equality signs, and
 characters outside the supported notation, which no expression may contain.
 */
module Calculation {
  import opened Basics
  import opened FormulaSyntax
  import opened FormulaCanonical
  import opened FormulaSemantics
  import opened FormulaSubstitution
  import FormulaPrinting

  datatype Lexeme = Tok(token: Token) | Equals | Unsupported(code: int)

  type Formula = seq<Lexeme>

  /** The parts between equality signs; there is always at least one. */
  function Split(f: Formula): (parts: seq<Formula>)
    ensures parts != []
  {
    if f == [] then [[]]
    else
      var rest := Split(f[1..]);
      if f[0] == Equals then [[]] + rest else [[f[0]] + rest[0]] + rest[1..]
  }

  function Tokens(part: Formula): Option<seq<Token>>
  {
    if part == [] then Some([]) else
    var rest := Tokens(part[1..]);
    if part[0].Tok? && rest.Some? then Some([part[0].token] + rest.value) else None
  }

  function Side(part: Formula): Option<Node>
  {
    var ts := Tokens(part);
    if ts.Some? then Ast(ts.value) else None
  }

  function SidesOf(parts: seq<Formula>): (r: Option<seq<Node>>)
    ensures r.Some? ==> |r.value| == |parts|
  {
    if parts == [] then Some([]) else
    var first, rest := Side(parts[0]), SidesOf(parts[1..]);
    if first.Some? && rest.Some? then Some([first.value] + rest.value) else None
  }

  /** The parsed sides of an equality of two to five sides. */
  function Sides(f: Formula): (r: Option<seq<Node>>)
    ensures r.Some? ==> 2 <= |r.value| <= 5
  {
    var parts := Split(f);
    if 2 <= |parts| <= 5 then SidesOf(parts) else None
  }

  function CanonicalAll(es: seq<Node>): (cs: seq<Node>)
    ensures |cs| == |es|
  {
    seq(|es|, i requires 0 <= i < |es| => Canonical(es[i]))
  }

  function Equation(f: Formula): (r: Option<seq<Node>>)
    ensures r.Some? ==> 2 <= |r.value| <= 5
  {
    var sides := Sides(f);
    if sides.Some? then Some(CanonicalAll(sides.value)) else None
  }

  datatype Verdict = Same | Different | Unknown

  /** Equality of a formula with a tail that adds zero or multiplies by one is left open. */
  function TailVerdict(shorter: Formula, longer: Formula): Option<Verdict>
  {
    if |shorter| < |longer| && shorter == longer[..|shorter|] && Continues(longer[|shorter|]) then
      var tail := Side(longer[|shorter| + 1..]);
      var sign := longer[|shorter|].token;
      var neutral := Some(Finite(if Power(sign) == 1 then 0.0 else 1.0));
      Some(if tail.Some? && Evaluate(tail.value, map[]) == neutral then Unknown else Different)
    else None
  }

  predicate Continues(x: Lexeme)
  {
    x.Tok? && 1 <= Power(x.token) <= 2
  }

  function FormulaRelation(left: Formula, right: Formula): Verdict
  {
    var a, b := Equation(left), Equation(right);
    if a.Some? && b.Some? then
      if a == b || (|a.value| == 2 && |b.value| == 2 && a.value == [b.value[1], b.value[0]])
      then Same else Different
    else if left == right then Same
    else
      var tail := TailVerdict(left, right);
      if tail.Some? then tail.value else
      var tail := TailVerdict(right, left);
      if tail.Some? then tail.value else Unknown
  }

  /* ---- what the comparison decides ---- */

  ghost predicate AllParsed(es: seq<Node>)
  {
    forall e | e in es :: Parsed(e)
  }

  lemma {:induction false} SidesAreParsed(parts: seq<Formula>)
    requires SidesOf(parts).Some?
    ensures AllParsed(SidesOf(parts).value)
  {
    if parts != [] {
      FormulaPrinting.PrintIsShortest(Tokens(parts[0]).value);
      SidesAreParsed(parts[1..]);
    }
  }

  /** Side by side, each expression is a rearrangement of the other. */
  ghost predicate Matching(a: seq<Node>, b: seq<Node>)
  {
    |a| == |b| && forall i | 0 <= i < |a| :: Rearranged(a[i], b[i])
  }

  ghost predicate MatchingEquations(a: seq<Node>, b: seq<Node>)
  {
    Matching(a, b) || (|a| == 2 && |b| == 2 && Matching(a, [b[1], b[0]]))
  }

  lemma CanonicalMatching(a: seq<Node>, b: seq<Node>)
    requires AllParsed(a) && AllParsed(b)
    ensures CanonicalAll(a) == CanonicalAll(b) <==> Matching(a, b)
  {
    if |a| == |b| {
      forall i | 0 <= i < |a| ensures CanonicalAll(a)[i] == CanonicalAll(b)[i] <==> Rearranged(a[i], b[i]) {
        assert a[i] in a && b[i] in b;
        CanonicalDecides(a[i], b[i]);
      }
    }
  }

  /** On two equations in the supported notation the verdict is exact, and never left open. */
  lemma RelationDecides(left: Formula, right: Formula)
    requires Sides(left).Some? && Sides(right).Some?
    ensures FormulaRelation(left, right) ==
            if MatchingEquations(Sides(left).value, Sides(right).value) then Same else Different
  {
    SidesAreParsed(Split(left));
    SidesAreParsed(Split(right));
    var a, b := Sides(left).value, Sides(right).value;
    CanonicalMatching(a, b);
    if |a| == 2 && |b| == 2 {
      CanonicalMatching(a, [b[1], b[0]]);
      SwappedCanonical(b);
    }
    hide Matching, CanonicalAll, Split, SidesOf;
  }

  lemma SwappedCanonical(b: seq<Node>)
    requires |b| == 2
    ensures CanonicalAll([b[1], b[0]]) == [CanonicalAll(b)[1], CanonicalAll(b)[0]]
  {
    hide Canonical;
  }

  /** Every side has a value and the values are all equal. */
  ghost predicate HoldsUnder(sides: seq<Node>, env: Bindings)
  {
    forall i, j | 0 <= i < |sides| && 0 <= j < |sides| ::
      Evaluate(sides[i], env).Some? && Evaluate(sides[i], env) == Evaluate(sides[j], env)
  }

  lemma MatchingHolds(a: seq<Node>, b: seq<Node>, env: Bindings)
    requires AllParsed(a) && AllParsed(b) && Matching(a, b)
    ensures forall i | 0 <= i < |a| :: Evaluate(a[i], env) == Evaluate(b[i], env)
    ensures HoldsUnder(a, env) <==> HoldsUnder(b, env)
  {
    forall i | 0 <= i < |a| ensures Evaluate(a[i], env) == Evaluate(b[i], env) {
      assert a[i] in a && b[i] in b;
      RearrangedAgree(a[i], b[i], env);
    }
  }

  /** Equations judged the same hold under the same bindings. */
  lemma SameEquationsHoldTogether(left: Formula, right: Formula, env: Bindings)
    requires Sides(left).Some? && Sides(right).Some? && FormulaRelation(left, right) == Same
    ensures HoldsUnder(Sides(left).value, env) <==> HoldsUnder(Sides(right).value, env)
  {
    RelationDecides(left, right);
    SidesAreParsed(Split(left));
    SidesAreParsed(Split(right));
    MatchingEquationsHold(Sides(left).value, Sides(right).value, env);
  }

  lemma MatchingEquationsHold(a: seq<Node>, b: seq<Node>, env: Bindings)
    requires AllParsed(a) && AllParsed(b) && MatchingEquations(a, b)
    ensures HoldsUnder(a, env) <==> HoldsUnder(b, env)
  {
    if Matching(a, b) {
      MatchingHolds(a, b, env);
    } else {
      MatchingHolds(a, [b[1], b[0]], env);
      SwappedHolds(b[0], b[1], env);
      assert b == [b[0], b[1]];
    }
  }

  lemma SwappedHolds(x: Node, y: Node, env: Bindings)
    ensures HoldsUnder([x, y], env) <==> HoldsUnder([y, x], env)
  {
    if HoldsUnder([x, y], env) {
      assert Evaluate([x, y][0], env) == Evaluate([x, y][1], env);
    }
    if HoldsUnder([y, x], env) {
      assert Evaluate([y, x][0], env) == Evaluate([y, x][1], env);
    }
  }

  /* ---- the calculation check ---- */

  datatype Rule = Rule(formula: Formula, evidenceIds: seq<string>, bindings: Bindings)
  datatype Source = Source(identifier: string, formula: Formula, ocr: bool)

  /** Symbol-number pairs that the question spells out. */
  type Inputs = set<(string, real)>

  const INPUT_BOUND := 10000000000000000000000000000000000000000000000000000000000000000000000000000000000000000000000000000.0

  function Absolute(v: real): real
  {
    if v < 0.0 then -v else v
  }

  /** One part in 10^24 of the larger of one and the magnitude. */
  function Allowance(v: real): real
  {
    0.000000000000000000000001 * (if Absolute(v) < 1.0 then 1.0 else Absolute(v))
  }

  /** Whether the displayed value misses the expected one; subtracting like infinities raises. */
  function Misses(actual: Quantity, expected: Quantity): Option<bool>
  {
    var gap := Added(actual, Negated(expected));
    if gap.None? then None
    else
      match Magnitude(gap.value)
      case Infinite(_) => Some(expected.Finite?)
      case Finite(d) => Some(expected.Finite? && d > Allowance(expected.v))
  }

  datatype Trial = Accept | Reject | Raise

  /** One displayed side against the expected value; the first side may have to be the rule itself. */
  function TrySide(side: Node, first: bool, body: Node, bindings: Bindings, expected: Quantity): Trial
  {
    var actual := Evaluate(side, map[]);
    if actual.None? then Raise else
    var misses := Misses(actual.value, expected);
    if misses.None? then Raise
    else if misses.value then Reject
    else if first && !side.Num? && side != Substitute(body, bindings) then Reject
    else Accept
  }

  function TrySides(sides: seq<Node>, from: nat, body: Node, bindings: Bindings, expected: Quantity): Trial
    requires from <= |sides|
    decreases |sides| - from
  {
    if from == |sides| then Accept else
    var trial := TrySide(sides[from], from == 0, body, bindings, expected);
    if trial == Accept then TrySides(sides, from + 1, body, bindings, expected) else trial
  }

  predicate Cites(rule: Rule, source: Source)
  {
    !source.ocr && source.identifier in rule.evidenceIds && FormulaRelation(rule.formula, source.formula) == Same
  }

  /** The identifiers of the cited sources that state the rule. */
  function Proven(rule: Rule, sources: seq<Source>): (ids: seq<string>)
    ensures ids != [] <==> exists s | s in sources :: Cites(rule, s)
    ensures forall id | id in ids :: exists s | s in sources :: Cites(rule, s) && s.identifier == id
  {
    hide Cites;
    if sources == [] then []
    else
      assert sources == [sources[0]] + sources[1..];
      (if Cites(rule, sources[0]) then [sources[0].identifier] else []) + Proven(rule, sources[1..])
  }

  predicate Evidenced(bindings: Bindings, inputs: Inputs)
  {
    && bindings != map[]
    && forall key | key in bindings :: Absolute(bindings[key]) <= INPUT_BOUND && (key, bindings[key]) in inputs
  }

  function TryRule(answer: seq<Node>, rule: Rule, sources: seq<Source>, inputs: Inputs): Trial
    requires |answer| >= 2
  {
    if Proven(rule, sources) == [] then Reject else
    var parts := Equation(rule.formula);
    if parts.None? then Raise
    else if |parts.value| != 2 || parts.value[0] != answer[0] || !answer[0].Sym? then Reject
    else if !Evidenced(rule.bindings, inputs) then Reject
    else
      var expected := Evaluate(parts.value[1], rule.bindings);
      if expected.None? then Raise
      else TrySides(answer[1..], 0, parts.value[1], rule.bindings, expected.value)
  }

  function Support(answer: seq<Node>, rules: seq<Rule>, sources: seq<Source>, inputs: Inputs): seq<string>
    requires |answer| >= 2
  {
    if rules == [] then [] else
    match TryRule(answer, rules[0], sources, inputs)
    case Accept => Proven(rules[0], sources)
    case Raise => []
    case Reject => Support(answer, rules[1..], sources, inputs)
  }

  method CheckSides(sides: seq<Node>, body: Node, bindings: Bindings, expected: Quantity) returns (trial: Trial)
    ensures trial == TrySides(sides, 0, body, bindings, expected)
  {
    for index := 0 to |sides|
      invariant TrySides(sides, 0, body, bindings, expected) == TrySides(sides, index, body, bindings, expected)
    {
      trial := TrySide(sides[index], index == 0, body, bindings, expected);
      if trial != Accept {
        return;
      }
    }
    return Accept;
  }

  /** The identifiers that support a displayed calculation: none when a rule raises. */
  method CalculationSupport(formula: Formula, rules: seq<Rule>, sources: seq<Source>, inputs: Inputs)
    returns (ids: seq<string>)
    ensures ids == if Equation(formula).None? then [] else Support(Equation(formula).value, rules, sources, inputs)
  {
    var parsed := Equation(formula);
    if parsed.None? {
      return [];
    }
    var answer := parsed.value;
    for k := 0 to |rules|
      invariant Support(answer, rules, sources, inputs) == Support(answer, rules[k..], sources, inputs)
    {
      assert rules[k..][1..] == rules[k + 1..];
      var rule := rules[k];
      ids := Proven(rule, sources);
      if ids == [] {
        continue;
      }
      var parts := Equation(rule.formula);
      if parts.None? {
        return [];
      }
      if |parts.value| != 2 || parts.value[0] != answer[0] || !answer[0].Sym? || !Evidenced(rule.bindings, inputs) {
        continue;
      }
      var expected := Evaluate(parts.value[1], rule.bindings);
      if expected.None? {
        return [];
      }
      var trial := CheckSides(answer[1..], parts.value[1], rule.bindings, expected.value);
      if trial == Raise {
        return [];
      }
      if trial == Accept {
        return;
      }
    }
    return [];
  }

  /* ---- what support means ---- */

  /** A displayed side against the value of the rule, with no canonical forms in sight. */
  ghost predicate Displays(side: Node, value: Quantity)
  {
    var actual := Evaluate(side, map[]);
    && actual.Some?
    && match value
       case Finite(v) => actual.value.Finite? && Absolute(actual.value.v - v) <= Allowance(v)
       case Infinite(_) => actual.value != value
  }

  /**
   The rule computes the output of the answer: a cited source states it, the question spells out its
   inputs, every displayed side shows its value, and a first side that is not just a number is the
   rule with the inputs written in.
   */
  ghost predicate Justifies(rule: Rule, answer: seq<Node>, sources: seq<Source>, inputs: Inputs)
    requires |answer| >= 2
  {
    var sides := Sides(rule.formula);
    && (exists s | s in sources :: Cites(rule, s))
    && sides.Some? && |sides.value| == 2 && sides.value[0].Sym? && answer[0] == sides.value[0]
    && Evidenced(rule.bindings, inputs)
    && var value := Evaluate(sides.value[1], rule.bindings);
       && value.Some?
       && (forall i | 1 <= i < |answer| :: Displays(answer[i], value.value))
       && (answer[1].Num? || Rearranged(answer[1], Plug(sides.value[1], rule.bindings)))
  }

  lemma MissesDecides(side: Node, expected: Quantity)
    ensures var actual := Evaluate(side, map[]);
            Displays(side, expected) <==> actual.Some? && Misses(actual.value, expected) == Some(false)
  {
  }

  ghost predicate Acceptable(shown: seq<Node>, i: nat, body: Node, bindings: Bindings, expected: Quantity)
    requires i < |shown|
  {
    && Displays(shown[i], expected)
    && (i != 0 || shown[0].Num? || Rearranged(shown[0], Plug(body, bindings)))
  }

  lemma TrySideDecides(shown: seq<Node>, i: nat, body: Node, bindings: Bindings, expected: Quantity)
    requires i < |shown| && Parsed(shown[i]) && Parsed(body)
    ensures TrySide(Canonical(shown[i]), i == 0, Canonical(body), bindings, expected) == Accept
       <==> Acceptable(shown, i, body, bindings, expected)
  {
    CanonicalKeepsValue(shown[i], map[]);
    MissesDecides(shown[i], expected);
    SubstitutionDecides(shown[i], body, bindings);
    SameNumber(shown[i]);
    hide Canonical, Evaluate, Misses, Displays, Rearranged, Substitute, Plug, Parsed;
  }

  lemma SameNumber(e: Node)
    ensures Canonical(e).Num? <==> e.Num?
  {
  }

  lemma {:induction false} TrySidesDecides(shown: seq<Node>, from: nat, body: Node, bindings: Bindings, expected: Quantity)
    requires AllParsed(shown) && Parsed(body) && from <= |shown|
    ensures TrySides(CanonicalAll(shown), from, Canonical(body), bindings, expected) == Accept
       <==> forall i | from <= i < |shown| :: Acceptable(shown, i, body, bindings, expected)
    decreases |shown| - from
  {
    if from < |shown| {
      assert shown[from] in shown;
      TrySideDecides(shown, from, body, bindings, expected);
      TrySidesDecides(shown, from + 1, body, bindings, expected);
    }
  }

  /** A rule is accepted exactly when it justifies the displayed calculation. */
  lemma TryRuleDecides(formula: Formula, rule: Rule, sources: seq<Source>, inputs: Inputs)
    requires Sides(formula).Some?
    ensures TryRule(Equation(formula).value, rule, sources, inputs) == Accept
       <==> Justifies(rule, Sides(formula).value, sources, inputs)
  {
    var answer, sides := Sides(formula).value, Sides(rule.formula);
    if sides.Some? && |sides.value| == 2 {
      SidesAreParsed(Split(formula));
      SidesAreParsed(Split(rule.formula));
      SameSymbol(answer[0], sides.value[0]);
      hide Sides, Canonical, Evaluate, Evidenced, FormulaRelation, Displays, TrySides;
      BodyDecides(answer, sides.value[1], rule.bindings);
    }
  }

  lemma SameSymbol(a: Node, b: Node)
    ensures Canonical(a) == Canonical(b) && Canonical(a).Sym? <==> a == b && a.Sym?
    ensures Canonical(a).Sym? <==> a.Sym?
  {
  }

  /** The displayed sides after the first, against the body of a rule. */
  lemma BodyDecides(answer: seq<Node>, body: Node, bindings: Bindings)
    requires |answer| >= 2 && AllParsed(answer) && Parsed(body)
    ensures Evaluate(Canonical(body), bindings) == Evaluate(body, bindings)
    ensures Evaluate(body, bindings).Some? ==>
              (TrySides(CanonicalAll(answer)[1..], 0, Canonical(body), bindings, Evaluate(body, bindings).value) == Accept
          <==> && (forall i | 1 <= i < |answer| :: Displays(answer[i], Evaluate(body, bindings).value))
               && (answer[1].Num? || Rearranged(answer[1], Plug(body, bindings))))
  {
    hide Canonical, Evaluate, Displays, TrySides, Rearranged, Parsed;
    CanonicalKeepsValue(body, bindings);
    var shown := answer[1..];
    assert CanonicalAll(answer)[1..] == CanonicalAll(shown);
    assert AllParsed(shown);
    if Evaluate(body, bindings).Some? {
      var value := Evaluate(body, bindings).value;
      TrySidesDecides(shown, 0, body, bindings, value);
      ShownSides(answer, body, bindings, value);
    }
  }

  lemma ShownSides(answer: seq<Node>, body: Node, bindings: Bindings, value: Quantity)
    requires |answer| >= 2
    ensures (forall i | 0 <= i < |answer[1..]| :: Acceptable(answer[1..], i, body, bindings, value))
       <==> && (forall i | 1 <= i < |answer| :: Displays(answer[i], value))
            && (answer[1].Num? || Rearranged(answer[1], Plug(body, bindings)))
  {
    var shown := answer[1..];
    if forall i | 0 <= i < |shown| :: Acceptable(shown, i, body, bindings, value) {
      forall i | 1 <= i < |answer| ensures Displays(answer[i], value) {
        assert Acceptable(shown, i - 1, body, bindings, value);
      }
      assert Acceptable(shown, 0, body, bindings, value);
    }
  }

  /** Whatever supports a displayed calculation comes from a rule that justifies it. */
  lemma {:induction false} SupportIsJustified(formula: Formula, rules: seq<Rule>, sources: seq<Source>, inputs: Inputs)
    requires Sides(formula).Some?
    ensures var ids := Support(Equation(formula).value, rules, sources, inputs);
            ids != [] ==> exists rule | rule in rules ::
              && Justifies(rule, Sides(formula).value, sources, inputs)
              && ids == Proven(rule, sources)
  {
    if rules != [] {
      TryRuleDecides(formula, rules[0], sources, inputs);
      SupportIsJustified(formula, rules[1..], sources, inputs);
    }
  }

  /** A first displayed side that is more than a number has exactly the value of the rule. */
  lemma SpelledOutSideIsExact(rule: Rule, answer: seq<Node>, sources: seq<Source>, inputs: Inputs)
    requires |answer| >= 2 && AllParsed(answer) && Justifies(rule, answer, sources, inputs) && !answer[1].Num?
    ensures Evaluate(answer[1], map[]) == Evaluate(Sides(rule.formula).value[1], rule.bindings)
  {
    var body := Sides(rule.formula).value[1];
    SidesAreParsed(Split(rule.formula));
    assert answer[1] in answer && body in Sides(rule.formula).value;
    SubstitutionDecides(answer[1], body, rule.bindings);
    CanonicalKeepsValue(answer[1], map[]);
    CanonicalKeepsValue(body, rule.bindings);
    SubstitutionLemma(Canonical(body), rule.bindings, map[]);
    assert map[] + rule.bindings == rule.bindings;
  }

  /**
   The tolerance protects a displayed number exactly when the rule has a finite value: a rule whose
   value is infinite, and no other, supports every number whatever.
   */
  lemma NumberIsSupported(rule: Rule, symbol: string, shown: real, sources: seq<Source>, inputs: Inputs)
    requires Justifies(rule, [Sym(symbol), Num(shown)], sources, inputs)
    ensures var value := Evaluate(Sides(rule.formula).value[1], rule.bindings).value;
            && (value.Finite? ==> Absolute(shown - value.v) <= Allowance(value.v))
            && (value.Infinite? <==> forall other: real :: Justifies(rule, [Sym(symbol), Num(other)], sources, inputs))
  {
    var value := Evaluate(Sides(rule.formula).value[1], rule.bindings).value;
    assert Displays([Sym(symbol), Num(shown)][1], value);
    if value.Infinite? {
      forall other: real ensures Justifies(rule, [Sym(symbol), Num(other)], sources, inputs) {
        assert Displays(Num(other), value);
      }
    } else {
      var other := value.v + Allowance(value.v) + 1.0;
      assert !Displays([Sym(symbol), Num(other)][1], value);
      assert !Justifies(rule, [Sym(symbol), Num(other)], sources, inputs);
    }
  }

  /* ---- printed equations ---- */

  function Lexemes(ts: seq<Token>): (f: Formula)
    ensures |f| == |ts| && Equals !in f
  {
    seq(|ts|, i requires 0 <= i < |ts| => Tok(ts[i]))
  }

  function PrintEquation(a: Node, b: Node): Formula
    requires Parsed(a) && Parsed(b)
  {
    Lexemes(FormulaPrinting.Print(a, 0)) + ([Equals] + Lexemes(FormulaPrinting.Print(b, 0)))
  }

  lemma {:induction false} SplitPlain(part: Formula)
    requires Equals !in part
    ensures Split(part) == [part]
  {
    if part != [] {
      SplitPlain(part[1..]);
      assert part == [part[0]] + part[1..];
    }
  }

  lemma {:induction false} SplitEquality(left: Formula, right: Formula)
    requires Equals !in left && Equals !in right
    ensures Split(left + ([Equals] + right)) == [left, right]
  {
    if left == [] {
      SplitPlain(right);
      SplitHead(Equals, right);
      assert [] + ([Equals] + right) == [Equals] + right;
    } else {
      var first, rest := left[0], left[1..];
      assert left == [first] + rest;
      SplitEquality(rest, right);
      SplitHead(first, rest + ([Equals] + right));
      assert left + ([Equals] + right) == [first] + (rest + ([Equals] + right));
    }
  }

  lemma SplitHead(x: Lexeme, rest: Formula)
    ensures var parts := Split(rest);
            Split([x] + rest) == if x == Equals then [[]] + parts else [[x] + parts[0]] + parts[1..]
  {
    assert ([x] + rest)[1..] == rest;
  }

  lemma {:induction false} TokensOf(ts: seq<Token>)
    ensures Tokens(Lexemes(ts)) == Some(ts)
  {
    if ts != [] {
      TokensOf(ts[1..]);
      assert Lexemes(ts)[1..] == Lexemes(ts[1..]);
      assert ts == [ts[0]] + ts[1..];
    }
  }

  /** Every pair of trees is the two sides of its printed equation. */
  lemma PrintedSides(a: Node, b: Node)
    requires Parsed(a) && Parsed(b)
    ensures Sides(PrintEquation(a, b)) == Some([a, b])
  {
    var left, right := Lexemes(FormulaPrinting.Print(a, 0)), Lexemes(FormulaPrinting.Print(b, 0));
    SplitEquality(left, right);
    assert Side(left) == Some(a) && Side(right) == Some(b) by {
      TokensOf(FormulaPrinting.Print(a, 0));
      TokensOf(FormulaPrinting.Print(b, 0));
      FormulaPrinting.RoundTrip(a);
      FormulaPrinting.RoundTrip(b);
    }
    PairOfSides(left, right);
  }

  lemma PairOfSides(left: Formula, right: Formula)
    requires Side(left).Some? && Side(right).Some?
    ensures SidesOf([left, right]) == Some([Side(left).value, Side(right).value])
  {
    assert [left, right][1..] == [right];
    SidesOfOne(right);
    assert [Side(left).value] + [Side(right).value] == [Side(left).value, Side(right).value];
  }

  lemma SidesOfOne(part: Formula)
    requires Side(part).Some?
    ensures SidesOf([part]) == Some([Side(part).value])
  {
    var none: seq<Formula> := [part][1..];
    assert none == [];
    assert [Side(part).value] + [] == [Side(part).value];
  }

  /* ---- a rule without a finite value ---- */

  ghost const RECIPROCAL := App(Pow, [Sym("x"), App(Neg, [Num(1.0)])])

  /** y = x ^ -1, with x given as zero. */
  ghost function ReciprocalRule(): Rule
  {
    Rule(PrintEquation(Sym("y"), RECIPROCAL), ["E1"], map["x" := 0.0])
  }

  /**
   With an input of zero this rule is infinite, and any number is accepted as its result.  The rules
   of `build_numeric_rules` have finite values, so such a rule has to come from another caller.
   */
  lemma ReciprocalOfZeroSupportsAnything(shown: real)
    ensures Justifies(ReciprocalRule(), [Sym("y"), Num(shown)],
                      [Source("E1", ReciprocalRule().formula, false)], {("x", 0.0)})
  {
    var rule, source := ReciprocalRule(), Source("E1", ReciprocalRule().formula, false);
    PrintedSides(Sym("y"), RECIPROCAL);
    ReciprocalIsInfinite();
    ZeroIsEvidenced();
    FormulaMatchesItself(rule.formula);
    hide Evaluate, FormulaRelation, Sides, PrintEquation, Evidenced, Justifies;
    assert Cites(rule, source);
    InfiniteRuleJustifies(rule, "y", RECIPROCAL, shown, source, [source], {("x", 0.0)});
  }

  lemma ZeroIsEvidenced()
    ensures Evidenced(map["x" := 0.0], {("x", 0.0)})
  {
    var bindings: Bindings := map["x" := 0.0];
    assert "x" in bindings;
  }

  lemma InfiniteRuleJustifies(rule: Rule, symbol: string, body: Node, shown: real,
                              source: Source, sources: seq<Source>, inputs: Inputs)
    requires source in sources && Cites(rule, source) && Evidenced(rule.bindings, inputs)
    requires Sides(rule.formula) == Some([Sym(symbol), body])
    requires Evaluate(body, rule.bindings) == Some(Infinite(false))
    ensures Justifies(rule, [Sym(symbol), Num(shown)], sources, inputs)
  {
    assert Displays(Num(shown), Infinite(false));
  }

  lemma FormulaMatchesItself(f: Formula)
    ensures FormulaRelation(f, f) == Same
  {
  }

  lemma ReciprocalIsInfinite()
    ensures Evaluate(RECIPROCAL, map["x" := 0.0]) == Some(Infinite(false))
  {
    var env: Bindings := map["x" := 0.0];
    assert Evaluate(App(Neg, [Num(1.0)]), env) == Some(Finite(-1.0));
  }
}
