/**
 What the conditions of the calculation check say, without the functions that decide them: which
 texts are equations, what the comparison answers outside the supported notation, when a source
 states a rule, and how close a displayed value has to be.
 */
module CalculationMeaning {
  import opened Basics
  import opened FormulaSyntax
  import opened FormulaCanonical
  import opened FormulaSemantics
  import opened FormulaSubstitution
  import opened Calculation
  import FormulaPrinting

  /* ---- which texts are equations ---- */

  /** Trees printed one after another with equality signs between them. */
  function PrintChain(es: seq<Node>): (f: Formula)
    requires es != [] && forall e | e in es :: Parsed(e)
  {
    var first := Lexemes(FormulaPrinting.Print(es[0], 0));
    if |es| == 1 then first else first + ([Equals] + PrintChain(es[1..]))
  }

  lemma {:induction false} SplitChain(left: Formula, right: Formula)
    requires Equals !in left
    ensures Split(left + ([Equals] + right)) == [left] + Split(right)
  {
    if left == [] {
      SplitHead(Equals, right);
      assert [] + ([Equals] + right) == [Equals] + right;
    } else {
      var first, rest := left[0], left[1..];
      assert left == [first] + rest;
      SplitChain(rest, right);
      SplitHead(first, rest + ([Equals] + right));
      assert left + ([Equals] + right) == [first] + (rest + ([Equals] + right));
    }
  }

  lemma PrintedSide(e: Node)
    requires Parsed(e)
    ensures Side(Lexemes(FormulaPrinting.Print(e, 0))) == Some(e)
  {
    TokensOf(FormulaPrinting.Print(e, 0));
    FormulaPrinting.RoundTrip(e);
  }

  lemma {:induction false} ChainSides(es: seq<Node>)
    requires es != [] && forall e | e in es :: Parsed(e)
    ensures |Split(PrintChain(es))| == |es| && SidesOf(Split(PrintChain(es))) == Some(es)
  {
    hide Side, FormulaPrinting.Print, Lexemes;
    var first := Lexemes(FormulaPrinting.Print(es[0], 0));
    PrintedSide(es[0]);
    if |es| == 1 {
      SplitPlain(first);
      SidesOfOne(first);
      assert es == [es[0]];
    } else {
      ChainSides(es[1..]);
      SplitChain(first, PrintChain(es[1..]));
      SidesStep(first, Split(PrintChain(es[1..])));
      assert es == [es[0]] + es[1..];
    }
  }

  lemma SidesStep(part: Formula, parts: seq<Formula>)
    requires Side(part).Some? && SidesOf(parts).Some?
    ensures SidesOf([part] + parts) == Some([Side(part).value] + SidesOf(parts).value)
  {
    hide Side;
    assert ([part] + parts)[1..] == parts;
  }

  /** Any trees printed as one equality are read back as its sides exactly if there are two to five of them. */
  lemma EqualitiesAreRead(es: seq<Node>)
    requires es != [] && forall e | e in es :: Parsed(e)
    ensures Sides(PrintChain(es)) == if 2 <= |es| <= 5 then Some(es) else None
  {
    ChainSides(es);
    hide Split, SidesOf, PrintChain;
  }

  /** A text with a character outside the notation is no equation. */
  lemma {:induction false} UnsupportedIsNoEquation(f: Formula, code: int)
    requires Unsupported(code) in f
    ensures Sides(f).None?
  {
    SplitHolds(f, Unsupported(code));
    var part :| part in Split(f) && Unsupported(code) in part;
    NoTokens(part, code);
    NoSides(Split(f), part);
  }

  lemma {:induction false} SplitHolds(f: Formula, x: Lexeme)
    requires x in f && x != Equals
    ensures exists part | part in Split(f) :: x in part
  {
    var rest := Split(f[1..]);
    if f[0] == Equals {
      SplitHolds(f[1..], x);
      var part :| part in rest && x in part;
      assert part in Split(f);
    } else if f[0] == x {
      assert Split(f)[0][0] == x && Split(f)[0] in Split(f);
    } else {
      SplitHolds(f[1..], x);
      var part :| part in rest && x in part;
      if part == rest[0] {
        assert Split(f)[0] == [f[0]] + rest[0] && Split(f)[0] in Split(f);
      } else {
        assert part in rest[1..] && part in Split(f);
      }
    }
  }

  lemma {:induction false} NoTokens(part: Formula, code: int)
    requires Unsupported(code) in part
    ensures Tokens(part).None?
  {
    if part[0].Tok? {
      NoTokens(part[1..], code);
    }
  }

  lemma {:induction false} NoSides(parts: seq<Formula>, part: Formula)
    requires part in parts && Side(part).None?
    ensures SidesOf(parts).None?
  {
    hide Side;
    if parts[0] != part {
      NoSides(parts[1..], part);
    }
  }

  /* ---- comparison outside the notation ---- */

  /** A text that is no equation compares as the same only with itself. */
  lemma UnreadIsItself(f: Formula, g: Formula)
    requires Sides(f).None? || Sides(g).None?
    ensures FormulaRelation(f, g) == Same <==> f == g
  {
    hide TailVerdict, Sides, CanonicalAll;
    TailIsNeverSame(f, g);
    TailIsNeverSame(g, f);
  }

  lemma TailIsNeverSame(f: Formula, g: Formula)
    ensures TailVerdict(f, g) != Some(Same)
  {
    hide Evaluate, Side;
  }

  /** The tail changes nothing: it adds or takes away zero, or multiplies or divides by one. */
  ghost predicate Neutral(sign: Token, v: real)
  {
    ((sign == Plus || sign == Minus) && v == 0.0) || ((sign == Star || sign == Slash) && v == 1.0)
  }

  /**
   A text that is no equation and the same text with one more term or factor: different, unless the
   tail changes nothing, which leaves the question open.
   */
  lemma TailDecides(f: Formula, sign: Token, v: real)
    requires Sides(f).None? && sign in {Plus, Minus, Star, Slash}
    ensures var longer := f + [Tok(sign), Tok(Number(v))];
            && FormulaRelation(f, longer) == (if Neutral(sign, v) then Unknown else Different)
            && FormulaRelation(longer, f) == (if Neutral(sign, v) then Unknown else Different)
  {
    var longer := f + [Tok(sign), Tok(Number(v))];
    assert longer[|f|] == Tok(sign) && longer[..|f|] == f && longer[|f| + 1..] == [Tok(Number(v))];
    NumberSide(v);
    hide Sides, CanonicalAll, Side;
    assert TailVerdict(f, longer) == Some(if Neutral(sign, v) then Unknown else Different);
    assert TailVerdict(longer, f) == None;
    hide TailVerdict;
  }

  lemma NumberSide(v: real)
    ensures Side([Tok(Number(v))]) == Some(Num(v))
  {
    assert Lexemes([Number(v)]) == [Tok(Number(v))];
    PrintedSide(Num(v));
  }

  /** Texts that are no equations and differ otherwise are left open. */
  lemma OthersAreOpen(f: Formula, g: Formula)
    requires Sides(f).None? || Sides(g).None?
    requires f != g && !(f <= g) && !(g <= f)
    ensures FormulaRelation(f, g) == Unknown
  {
    hide Sides, CanonicalAll, Side, Evaluate;
    NoTail(f, g);
    NoTail(g, f);
  }

  lemma NoTail(f: Formula, g: Formula)
    requires !(f <= g)
    ensures TailVerdict(f, g) == None
  {
    hide Side, Evaluate;
  }

  /* ---- when a source states a rule ---- */

  /** The source is listed for the rule, was not read by character recognition, and is the same equation rearranged. */
  ghost predicate StatedBy(rule: Rule, source: Source)
  {
    && !source.ocr && source.identifier in rule.evidenceIds
    && Sides(rule.formula).Some? && Sides(source.formula).Some?
    && MatchingEquations(Sides(rule.formula).value, Sides(source.formula).value)
  }

  lemma CitesIsStated(rule: Rule, source: Source)
    requires Sides(rule.formula).Some?
    ensures Cites(rule, source) <==> StatedBy(rule, source)
  {
    if Sides(source.formula).Some? {
      RelationDecides(rule.formula, source.formula);
    } else {
      UnreadIsItself(rule.formula, source.formula);
    }
    hide FormulaRelation, Sides, MatchingEquations;
  }

  /** What one source contributes. */
  ghost function Named(rule: Rule, source: Source): seq<string>
  {
    if StatedBy(rule, source) then [source.identifier] else []
  }

  lemma ProvenStep(rule: Rule, source: Source, rest: seq<Source>)
    requires Sides(rule.formula).Some?
    ensures Proven(rule, [source] + rest) == Named(rule, source) + Proven(rule, rest)
  {
    CitesIsStated(rule, source);
    hide Cites, StatedBy, Sides;
    assert ([source] + rest)[0] == source && ([source] + rest)[1..] == rest;
  }

  lemma ProvenNone(rule: Rule)
    ensures Proven(rule, []) == []
  {
  }

  /** The identifiers come from the sources that state the rule, in their order, one for each. */
  lemma {:induction false} ProvenInOrder(rule: Rule, before: seq<Source>, source: Source, after: seq<Source>)
    requires Sides(rule.formula).Some?
    ensures Proven(rule, before + ([source] + after)) == Proven(rule, before) + (Named(rule, source) + Proven(rule, after))
    ensures Proven(rule, []) == []
  {
    hide *;
    ProvenNone(rule);
    ProvenStep(rule, source, after);
    if before == [] {
      assert before + ([source] + after) == [source] + after;
    } else {
      var first, rest := before[0], before[1..];
      assert before == [first] + rest;
      ProvenInOrder(rule, rest, source, after);
      ProvenStep(rule, first, rest);
      ProvenStep(rule, first, rest + ([source] + after));
      assert before + ([source] + after) == [first] + (rest + ([source] + after));
    }
  }

  /* ---- how close a value has to be ---- */

  function TenTo(n: nat): real
  {
    if n == 0 then 1.0 else 10.0 * TenTo(n - 1)
  }

  lemma TenToEight(n: nat)
    ensures TenTo(n + 8) == 100000000.0 * TenTo(n)
  {
    assert TenTo(n + 2) == 100.0 * TenTo(n);
    assert TenTo(n + 4) == 100.0 * TenTo(n + 2);
    assert TenTo(n + 6) == 100.0 * TenTo(n + 4);
    assert TenTo(n + 8) == 100.0 * TenTo(n + 6);
  }

  lemma TenToTwentyFour()
    ensures TenTo(24) == 1000000000000000000000000.0
  {
    TenToEight(0);
    TenToEight(8);
    TenToEight(16);
  }

  lemma TenToHundred()
    ensures TenTo(100) == INPUT_BOUND
  {
    TenToTwentyFour();
    TenToEight(24);
    TenToEight(32);
    TenToEight(40);
    TenToEight(48);
    TenToEight(56);
    TenToEight(64);
    TenToEight(72);
    TenToEight(80);
    TenToEight(88);
    assert TenTo(98) == 100.0 * TenTo(96);
    assert TenTo(100) == 100.0 * TenTo(98);
  }

  /** The larger of one and the magnitude of the value. */
  function Scale(v: real): real
  {
    if v > 1.0 then v else if v < -1.0 then -v else 1.0
  }

  /** The numbers differ by at most one part in 10^24. */
  ghost predicate Close(u: real, v: real)
  {
    -Scale(v) <= (u - v) * TenTo(24) <= Scale(v)
  }

  lemma CloseIsAllowed(u: real, v: real)
    ensures Close(u, v) <==> Absolute(u - v) <= Allowance(v)
  {
    TenToTwentyFour();
    hide TenTo;
  }

  /** A side displays a finite value exactly if it has a close one, and an infinite value exactly if it has another. */
  lemma DisplaysIsClose(side: Node, v: real, negative: bool)
    ensures Displays(side, Finite(v)) <==> exists u: real :: Evaluate(side, map[]) == Some(Finite(u)) && Close(u, v)
    ensures Displays(side, Infinite(negative)) <==> Evaluate(side, map[]).Some? && Evaluate(side, map[]) != Some(Infinite(negative))
  {
    var actual := Evaluate(side, map[]);
    if actual.Some? && actual.value.Finite? {
      CloseIsAllowed(actual.value.v, v);
    }
    hide Evaluate, Close, Absolute, Allowance;
    if Displays(side, Finite(v)) {
      assert actual == Some(Finite(actual.value.v)) && Close(actual.value.v, v);
    }
  }

  /** The inputs are some, none larger than 10^100 in magnitude, and each spelled out in the question. */
  lemma EvidencedMeans(bindings: Bindings, inputs: Inputs)
    ensures Evidenced(bindings, inputs) <==>
              && bindings != map[]
              && forall key | key in bindings :: -TenTo(100) <= bindings[key] <= TenTo(100) && (key, bindings[key]) in inputs
  {
    TenToHundred();
    hide TenTo;
  }

  /* ---- what support says ---- */

  /** The rule is stated by a source, its inputs are spelled out, and it computes what is displayed. */
  ghost predicate Computes(rule: Rule, answer: seq<Node>, sources: seq<Source>, inputs: Inputs)
    requires |answer| >= 2
  {
    var sides := Sides(rule.formula);
    && Stated(rule, sources)
    && sides.Some? && |sides.value| == 2 && sides.value[0].Sym? && answer[0] == sides.value[0]
    && rule.bindings != map[]
    && (forall key | key in rule.bindings ::
          -TenTo(100) <= rule.bindings[key] <= TenTo(100) && (key, rule.bindings[key]) in inputs)
    && Evaluate(sides.value[1], rule.bindings).Some?
    && (forall i | 1 <= i < |answer| :: Shows(answer[i], Evaluate(sides.value[1], rule.bindings).value))
    && (answer[1].Num? || Rearranged(answer[1], Plug(sides.value[1], rule.bindings)))
  }

  ghost predicate Shows(side: Node, value: Quantity)
  {
    match value
    case Finite(v) => exists u: real :: Evaluate(side, map[]) == Some(Finite(u)) && Close(u, v)
    case Infinite(_) => Evaluate(side, map[]).Some? && Evaluate(side, map[]) != Some(value)
  }

  lemma ShowsIsDisplays(side: Node, value: Quantity)
    ensures Shows(side, value) <==> Displays(side, value)
  {
    match value
    case Finite(v) => DisplaysIsClose(side, v, false);
    case Infinite(n) => DisplaysIsClose(side, 0.0, n);
  }

  ghost predicate Stated(rule: Rule, sources: seq<Source>)
  {
    exists s | s in sources :: StatedBy(rule, s)
  }

  lemma StatedIffCited(rule: Rule, sources: seq<Source>)
    requires Sides(rule.formula).Some?
    ensures Stated(rule, sources) <==> exists s | s in sources :: Cites(rule, s)
  {
    forall s | s in sources ensures Cites(rule, s) <==> StatedBy(rule, s) {
      CitesIsStated(rule, s);
    }
    hide Cites, StatedBy, Sides;
  }

  lemma JustifiesIsComputes(rule: Rule, answer: seq<Node>, sources: seq<Source>, inputs: Inputs)
    requires |answer| >= 2
    ensures Justifies(rule, answer, sources, inputs) <==> Computes(rule, answer, sources, inputs)
  {
    EvidencedMeans(rule.bindings, inputs);
    if Sides(rule.formula).Some? {
      StatedIffCited(rule, sources);
    }
    hide Sides, Cites, StatedBy, Evidenced, Evaluate, TenTo, Rearranged, Plug;
    forall i, value | 1 <= i < |answer| ensures Shows(answer[i], value) <==> Displays(answer[i], value) {
      ShowsIsDisplays(answer[i], value);
    }
    hide Shows, Displays;
  }

  /** A rule is accepted for a displayed calculation exactly if it computes it. */
  lemma AcceptedIffComputed(formula: Formula, rule: Rule, sources: seq<Source>, inputs: Inputs)
    requires Sides(formula).Some?
    ensures TryRule(Equation(formula).value, rule, sources, inputs) == Accept
       <==> Computes(rule, Sides(formula).value, sources, inputs)
  {
    TryRuleDecides(formula, rule, sources, inputs);
    JustifiesIsComputes(rule, Sides(formula).value, sources, inputs);
    hide TryRule, Sides, Computes, Justifies;
  }
}
