# Verified model of the evidence pipeline

The repository answers questions from uploaded documents. Its hard logic decides what source text may
be cut, cited, compared, packed and published. This project models that logic in Dafny and proves what
its documentation and tests rely on. It follows the source's own form: recursive code is modelled as
functions and lemmas, loops and objects as methods and classes that are proved against those functions.

- **Formulas** (`FormulaSyntax`, `FormulaPrinting`, `FormulaOrder`, `FormulaCanonical`,
  `FormulaSemantics`, `FormulaArithmetic`, `FormulaSubstitution`, `Calculation`, `CalculationLimits`,
  `CalculationMeaning`): the operator-precedence parser is the inverse of printing with the fewest
  brackets, the levels of the notation given by a table of their own; the canonical form decides
  rearrangement by associativity and commutativity and keeps value and definedness, and the values obey
  the laws of arithmetic; a displayed calculation is supported exactly if a proven source rule justifies
  it, and it is known for which rules a calculation can be written out at all.
- **Passages** (`MathSpans`, `MathNotation`, `PassageCuts`, `Passages`, `TablePassages`,
  `PassageNotation`): the formula scanner is local to blocks of whole lines, so no passage boundary falls
  inside a formula of the whole text; passages are verbatim, well cut and packed as full as allowed.
- **Publication** (`MarkdownLines`, `MarkdownNotation`, `PublicationSegments`, `PublicationUnits`,
  `UnitNotation`, `UnitProperties`, `AnswerStructure`, `AnswerClaims`, `AnswerDivisions`, `Publication`,
  `PublicationRules`, `PublicationSoundness`, `TitleCuts`, `PublishedTitles`, `RepeatedTitle`,
  `SpanOrder`): units partition the visible text and keep claims, titles and list items whole; headings
  form a forest and every piece of body text stands under the one before it; a published body is whole
  units and headings in order, and every visible place of them stands in a vouched claim, in a heading
  above one, or in a table rule; it is known exactly which claims are published and when a body repeats a
  title.
- **Citations** (`CitationShields`, `CitationSwap`, `Citations`, `CitationMeaning`,
  `CitationNormalForm`): a group converts exactly to the sources of the names in it; rewriting citations
  moves nothing into or out of code, formulas and quotations, so normalization is idempotent.
- **Selection** (`Packing`, `Packer`, `PackerMeaning`, `QueryCoverage`, `QueryFrontiers`,
  `SelectionMeaning`, `EvidenceRegistry`, `EvidenceMeaning`): closures, components and budgets of the
  packer over whole runs; diminishing coverage and its greedy order; a fair schedule of query lists;
  stable evidence identifiers.
- **Registry state** (`VersionChain`, `VersionMeaning`, `JobProtocol`, `JobOutcomes`): the supersession
  chain under create, update, tombstone and backfill; cancellation against repeated, interleaved
  deliveries.
- **Transport** (`WriterPayload`, `PayloadMeaning`, `Decimals`): the interning encoder and its strict
  decoder.

The modules named after notation or meaning say what the tables, patterns and small
functions of the others stand for, in signs, numbers and fields and without naming them again.

`Basics` holds the shared types.

## What the proofs found

- `Calculation`: a rule whose value is infinite supports every displayed number, because the comparison
  with an infinite tolerance is never exceeded. In the source's decimal arithmetic `x^-1` with `x = 0` is
  infinite, while `1/x` raises. `NumberIsSupported` gives the exact condition and
  `ReciprocalOfZeroSupportsAnything` the input. `build_numeric_rules` rejects such rules
  (grounding_verifier.py:857-858), so they can only come from another caller of `verify_grounding`;
  `FiniteRulesAreTight` says what holds without them.
- `CalculationLimits`: a calculation that spells out a rule with a negative input is never accepted, because
  the input is put in as a negative number while numbers are read unsigned. `SpelledOutIff` says exactly
  when a spelled-out calculation can be accepted. One rule that raises, such as `1/x` with `x = 0`, also
  silences every rule after it (`QuotientByZeroSilences`).
- `PublishedTitles`, `RepeatedTitle`: a title can be published twice over. Of two consecutive titles that are
  claims themselves, the first is shown as a unit, trimmed, and as a heading of the second, with its
  blanks. `ShownOnceDecides` gives the exact condition and `TitleIsShownTwice` an answer, `  **A [E1]**`
  before `**B [E1]**`.
- `VersionChain`: a family stored with blanks around it is compared trimmed when a change relinks its
  group, so a new version misses its predecessor, while the backfill links it. This concerns files
  without an explicit family whose name, its version and dates taken away, keeps no Latin or Cyrillic
  letter and no digit (document_catalog.py:122-138), such as "— .pdf", with the version in the metadata.
  `LinkedIffNamed` gives the exact condition and `BlankNameIsMissed` the input.
- `JobProtocol`: a terminal job status is not final, and aborting a delivery does not stop a write that
  runs in a thread. `CompletesIffCommitted` says exactly when a cancelled job can still complete;
  `CancelledCanComplete` and `QuietCanComplete` give runs.

## Model

| member | source | states |
|---|---|---|
| FormulaSyntax.Expression.Parse | grounding_verifier.py:518-547 | the parser object moves its position exactly as the recursive parse of the remaining tokens says, and fails where it fails |
| FormulaSyntax.Expression.ParseOperand | grounding_verifier.py:522-537 | signs bind looser than powers, brackets must close, other tokens raise |
| FormulaSyntax.ParseAll | grounding_verifier.py:550-555 | a whole token list gives a tree exactly if nothing remains after it |
| FormulaPrinting.ParsePrint | grounding_verifier.py:518-547 | printing a tree for any context and parsing it there returns the tree and the rest of the tokens |
| FormulaPrinting.RoundTrip | grounding_verifier.py:513-555 | every tree the parser can produce is the parse of its minimally bracketed print |
| FormulaPrinting.PrintIsInjective | grounding_verifier.py:550-555 | two trees that print alike are the same tree |
| FormulaPrinting.ParseReads | grounding_verifier.py:518-547 | every successful parse, on any token list, read at least as many tokens as printing its tree takes and stops at a weaker operator |
| FormulaPrinting.PrintIsShortest | grounding_verifier.py:513-555 | no token list that parses to a tree is shorter than its print, so the print has the fewest brackets |
| FormulaPrinting.TablesAgree | grounding_verifier.py:538-546 | the levels of the notation (sums 1, products 2, powers and signs 3, leaves 4, with their operand levels) are the powers and minimums of the parser |
| FormulaOrder.SortForgetsOrder | grounding_verifier.py:570 | sorting forgets the order of children and nothing else |
| FormulaCanonical.CanonicalSpells | grounding_verifier.py:558-571 | every tree is a rearrangement of its canonical form written out |
| FormulaCanonical.StepKeepsCanonical | grounding_verifier.py:558-571 | one exchange or regrouping of + or * anywhere in a tree keeps the canonical form |
| FormulaCanonical.CanonicalDecides | grounding_verifier.py:558-585 | canonical trees are equal if and only if the parsed trees differ by associativity and commutativity of + and * |
| FormulaSemantics.CanonicalKeepsValue | grounding_verifier.py:727-746 | the canonical form has the same value, and is undefined for the same bindings, as the tree |
| FormulaSemantics.RearrangedAgree | grounding_verifier.py:727-746 | rearranged trees agree under every binding |
| FormulaArithmetic.SumOfTwo | grounding_verifier.py:734-735 | a sum of finite values is the real sum |
| FormulaArithmetic.SumOfMany | grounding_verifier.py:734-735 | the same for any number of operands |
| FormulaArithmetic.ProductOfTwo | grounding_verifier.py:736-740 | a product of finite values is the real product |
| FormulaArithmetic.LeafValues | grounding_verifier.py:728-731 | a number is itself, and a symbol has its binding or raises |
| FormulaArithmetic.NegationOf | grounding_verifier.py:732-733 | a sign turns the value |
| FormulaArithmetic.DifferenceUndone | grounding_verifier.py:742 | a difference plus what was taken away is the first operand |
| FormulaArithmetic.QuotientUndone | grounding_verifier.py:743 | a quotient times its divisor is the dividend, and it is undefined exactly for a divisor of zero |
| FormulaArithmetic.PowerIsDefined | grounding_verifier.py:744-746 | a power is undefined exactly for exponents other than the integers from -12 to 12 and for zero to the zero, and infinite exactly for zero to a negative exponent |
| FormulaArithmetic.PowerZero | grounding_verifier.py:744-745 | the power with exponent zero is one |
| FormulaArithmetic.PowerNext | grounding_verifier.py:744-745 | the power with the next exponent is the power times the base |
| FormulaArithmetic.PowerOpposite | grounding_verifier.py:744-745 | opposite powers of a number other than zero multiply to one |
| FormulaArithmetic.RaisingSpreads | grounding_verifier.py:727-746 | an operand that raises makes the whole raise |
| FormulaArithmetic.InfinityLaws | grounding_verifier.py:732-743 | infinities absorb finite terms and factors other than zero, and raise where the result is open |
| FormulaArithmetic.InfinitePowers | grounding_verifier.py:744-745 | the powers of an infinity |
| FormulaSubstitution.SubstitutionLemma | grounding_verifier.py:749-754 | evaluating after substitution is evaluating with the bindings added |
| FormulaSubstitution.CanonicalTwice | grounding_verifier.py:558-571 | canonicalising twice changes nothing |
| FormulaSubstitution.SubstituteIsPlug | grounding_verifier.py:749-754 | substituting into a canonical tree is canonicalising the plain replacement |
| FormulaSubstitution.SubstitutionDecides | grounding_verifier.py:905 | a displayed side equals the substituted rule if and only if it is a rearrangement of the rule with the numbers written in |
| Calculation.RelationDecides | grounding_verifier.py:581-585 | on two parseable equations the verdict is True exactly if the sides match, in order or two swapped, up to rearrangement, and False otherwise |
| Calculation.SameEquationsHoldTogether | grounding_verifier.py:581-585 | equations judged the same hold under the same bindings |
| CalculationMeaning.EqualitiesAreRead | grounding_verifier.py:574-578 | trees printed with equality signs between them are read back as the sides exactly if there are two to five |
| CalculationMeaning.UnsupportedIsNoEquation | grounding_verifier.py:508-509 | a text with an unsupported character is no equation |
| CalculationMeaning.UnreadIsItself | grounding_verifier.py:586-591 | if a side cannot be read the verdict is True exactly for equal texts |
| CalculationMeaning.TailDecides | grounding_verifier.py:592-607 | one more term or factor is a difference, unless it adds zero or multiplies by one, which leaves the question open |
| CalculationMeaning.OthersAreOpen | grounding_verifier.py:592-608 | unreadable texts of which neither continues the other are left open |
| Calculation.PrintedSides | grounding_verifier.py:574-578 | the printed equation of any two trees is read as those two sides |
| Calculation.CalculationSupport | grounding_verifier.py:870-911 | the loop over the rules returns the identifiers of the first accepted rule, and nothing once a rule raises |
| Calculation.TryRuleDecides | grounding_verifier.py:877-908 | a rule is accepted if and only if it is proven, has the output symbol, has evidenced bindings, and its value is within tolerance of every displayed side, the first being the substituted rule or a number |
| Calculation.SupportIsJustified | grounding_verifier.py:870-911 | any non-empty result comes from a rule that justifies the calculation and names its proven sources |
| CalculationMeaning.CitesIsStated | grounding_verifier.py:879-880 | a source states a rule if and only if it is listed, was not read by character recognition, and is the same equation rearranged |
| CalculationMeaning.ProvenInOrder | grounding_verifier.py:879-880 | the identifiers come from those sources, in their order, one for each |
| CalculationMeaning.EvidencedMeans | grounding_verifier.py:886-895 | the inputs are some, at most 10^100 in magnitude, and each spelled out |
| CalculationMeaning.DisplaysIsClose | grounding_verifier.py:899-902 | a side displays a value if and only if it differs by at most one part in 10^24 of the larger of one and the value |
| CalculationMeaning.AcceptedIffComputed | grounding_verifier.py:870-911 | a rule is accepted for a calculation if and only if a source states it, its inputs are spelled out, and its value is displayed on every side |
| Calculation.SpelledOutSideIsExact | grounding_verifier.py:905-906 | a first side that is more than a number evaluates exactly to the value of the rule |
| Calculation.NumberIsSupported | grounding_verifier.py:896-902 | a bare number is within 1e-24*max(1,abs(v)) of a finite value v; the value is infinite if and only if every number is accepted |
| CalculationLimits.FiniteRulesAreTight | grounding_verifier.py:857-902 | rules with finite values, the only ones `build_numeric_rules` makes, support a calculation only if every displayed side is within the tolerance of one of them |
| CalculationLimits.SpelledOutIff | grounding_verifier.py:870-911 | some spelled-out calculation is accepted for a rule if and only if a source cites it, it has one output symbol, evidenced inputs, a body with an operator and a finite value, and no input it uses is negative |
| CalculationLimits.RaisingRuleSilences | grounding_verifier.py:870-911 | a rule that raises ends the search, so rules after it support nothing |
| CalculationLimits.QuotientByZeroSilences | grounding_verifier.py:870-911 | the rule y = 1/x with x given as zero supports nothing and silences every rule after it |
| Calculation.ReciprocalOfZeroSupportsAnything | grounding_verifier.py:896-902 | the rule y = x^-1 with x given as zero, for which any number is accepted |
| MathSpans.FindClosing | evidence_anchors.py:206-212 | the first closing token that is not escaped |
| MathSpans.WordMathEnd | evidence_anchors.py:215-227 | the bracket that balances a Word marker, or the end of the text |
| MathSpans.FindMathSpans | evidence_anchors.py:230-255 | the scanning loop finds the spans of the recursive scan |
| MathNotation.Brackets | evidence_anchors.py:244-245 | after text in which nothing opens, `\[` to `\]` is exactly the first formula |
| MathNotation.Parens | evidence_anchors.py:246-247 | the same for `\(` to `\)` |
| MathNotation.Dollars | evidence_anchors.py:242-243 | the same for two dollar signs on either side |
| MathNotation.OneLine | evidence_anchors.py:248-253 | the same for one dollar sign on either side on one line |
| MathNotation.LoneDollarOpensNothing | evidence_anchors.py:248-253 | a dollar sign whose next is on another line or nowhere begins no formula |
| MathNotation.Tags | evidence_anchors.py:239-241 | the same for `[MATH]` to `[/MATH]`, in either case |
| MathNotation.Markers | evidence_anchors.py:237-238 | the same for `[MATH:` to its bracket, in either case |
| MathNotation.Unclosed | evidence_anchors.py:242-247 | a formula that is opened and never closed reaches to the end |
| MathNotation.OpenerIs | evidence_anchors.py:22 | exactly the signs of the pattern open a formula, a dollar sign only where no other stands beside it |
| MathNotation.EscapedIsOdd | evidence_anchors.py:199-203 | a sign is escaped exactly after an odd run of backslashes |
| MathNotation.EscapedOpensNothing | evidence_anchors.py:235-236 | an escaped opening opens nothing |
| MathSpans.ScanIsOrdered | evidence_anchors.py:230-255 | formulas are disjoint, in order and inside the text |
| MathSpans.ScanSplits | evidence_anchors.py:230-255 | a scan passes through the start of every line, with the last formula's end carried over |
| MathSpans.ScanLocally | evidence_anchors.py:230-255 | scanning a block of lines alone finds what the scan of the whole text finds in it, shifted |
| MathSpans.SpansAround | evidence_anchors.py:230-255 | the formulas of a text are those before a safe block, those of the block alone, and those after it |
| MathSpans.SafeLocally | evidence_anchors.py:312-320 | a place is safe in a block cut at safe line ends if and only if it is safe in the whole text |
| PassageCuts.SafeBreakDecides | evidence_anchors.py:258-260 | looking only at the last formula that starts before a place decides whether it is inside any |
| PassageCuts.ChooseCut | evidence_anchors.py:325-336 | the loop over the kinds of points finds the nearest point of the first kind that has one in the window, else the next space |
| PassageCuts.LargeParagraphUnits | evidence_anchors.py:316-342 | the cutting loop computes the units |
| PassageCuts.UnitsAreWellCut | evidence_anchors.py:316-342 | every unit over the limit has no safe cut in its window and ends at the next safe space or the end; every other ends at the right cut nearest the target |
| PassageCuts.WellCutIsUnique | evidence_anchors.py:316-342 | only one way of cutting meets that description |
| PassageNotation.EndsAreRead | evidence_anchors.py:320-322 | the places for cuts in signs: a stop and the blanks after it, a line feed, the end of white space |
| PassageNotation.LengthsAre | evidence_anchors.py:325-331 | a cut is sought from 600 to 2400 characters on, nearest to 1200, of two the first |
| Passages.CutBlocks | evidence_anchors.py:353-359 | the loop over paragraph boundaries collects the units of every block |
| Passages.PackBlocks | evidence_anchors.py:360-369 | the packing loop computes the greedy packing |
| Passages.PlainPassagesJoin | evidence_anchors.py:345-369 | without table rows the passages concatenate to the text, and blank text has none |
| Passages.NoPassageSplitsAFormula | evidence_anchors.py:230-260 | for any text without table rows no boundary between passages lies strictly inside a formula of the whole text, although long paragraphs are scanned alone |
| Passages.PassagesArePacked | evidence_anchors.py:360-369 | each passage is one unit or at most 1200 characters, holds whole consecutive units, and could not have taken the next one |
| PassageNotation.ShortIsWhole | evidence_anchors.py:316-317 | a paragraph of 2400 characters is one unit, and two units are packed exactly up to 1200 characters |
| PassageNotation.BoundariesAre | evidence_anchors.py:353-354 | paragraphs end exactly at the breaks (a line end, blanks, all following line ends) whose end is safe, and no break is missed |
| TablePassages.SplitPassages | evidence_anchors.py:263-309 | the loops over rows and runs compute the passages, or reject a row that does not parse |
| TablePassages.PassagesAreVerbatim | evidence_anchors.py:263-309 | for every text the passages concatenate to it, rows included; it is rejected exactly if some row does not parse |
| TablePassages.RowsStayWhole | evidence_anchors.py:263-309 | every table row is one passage, save for blank space around it |
| PassageNotation.RowIsRead | evidence_anchors.py:277 | a row is a line that begins with the marker after blanks |
| PassageNotation.LinesEnd | evidence_anchors.py:276 | lines end in a line feed, all but perhaps the last, and hold no other |
| PassageNotation.PlainBeforeRow | evidence_anchors.py:292-303 | text before a row is split as if it stood alone |
| MarkdownLines.FindFences | atomic_publication.py:35-48 | the loop over lines finds the fenced blocks, open ones reaching to the end |
| MarkdownNotation.SpacesAre | grounding_verifier.py:1009 | white space is exactly the signs that `strip` takes away |
| MarkdownNotation.LineIsRead | atomic_publication.py:36-38 | lines end as Python ends them, the ending left out if it is a line feed or carriage return |
| MarkdownNotation.FenceIsRead | atomic_publication.py:39-43 | at most three blanks and three or more of one mark are a fence, with its mark, length and whether nothing follows |
| MarkdownNotation.FenceIsWritten | atomic_publication.py:39-43 | every fence is so written |
| MarkdownNotation.AtxIsRead | atomic_publication.py:58 | a title of a level is exactly at most three blanks, that many number signs up to six, and a blank or the end |
| MarkdownNotation.BoldIsRead | atomic_publication.py:59 | two stars or underscores around some text, perhaps a colon, blanks around: a title |
| MarkdownNotation.BoldIsWritten | atomic_publication.py:59 | every bold title is so written |
| MarkdownNotation.ItemIsRead | atomic_publication.py:79 | a list item of an indentation is exactly blanks, a bullet or a number with dot or bracket, and white space |
| MarkdownNotation.BlockIsRead | atomic_publication.py:95 | a block is opened exactly by a fence or, after at most three blanks, a quotation mark |
| MarkdownNotation.GapsAreGaps | atomic_publication.py:68 | the paragraph gaps found are a line feed, blanks and all following line feeds, in order and disjoint |
| MarkdownNotation.NoGapIsMissed | atomic_publication.py:68 | every place where such a gap begins lies in a gap that is found |
| PublicationSegments.FindItems | atomic_publication.py:72-101 | the loop over lines finds the top-level list items with their continuations |
| PublicationSegments.SegmentsCover | atomic_publication.py:106-111 | every visible character lies in a trimmed segment |
| PublicationSegments.SegmentsAreWhole | atomic_publication.py:106-111 | visible characters without a cut between them share a segment |
| PublicationUnits.AbsorbDecides | atomic_publication.py:102-104 | after all items a place is a boundary exactly if it was one outside every item or is an end of an item, whatever the order |
| PublicationUnits.CutsDecide | atomic_publication.py:53-104 | the cuts are exactly the divisions outside list items and the ends of list items, which are disjoint |
| UnitNotation.UnitDivisionsDecide | atomic_publication.py:53-70 | units may be divided exactly at the ends of the answer, of its title lines and code blocks, and of paragraph gaps outside formulas, citations and code |
| UnitNotation.TitleSpansAre | atomic_publication.py:54-61 | titles are the headings that were told and the title lines |
| UnitNotation.ItemEndsAt | atomic_publication.py:89-99 | a line ends the open item exactly if it is indented no deeper and follows a blank line, or is a title, a fence or a quotation |
| PublicationUnits.FindLinks | atomic_publication.py:113-134 | the join loops link exactly the neighbours that a claim bridges or a colon ties to a formula |
| UnitNotation.LinkIsRead | atomic_publication.py:115-133 | neighbours are linked exactly by a claim that shares a stretch with a piece before and a piece after, or by a colon |
| UnitNotation.LeadIsRead | atomic_publication.py:122-133 | a colon ties a piece to the next exactly if it is no title, ends in a colon without citations, only white space stands between, and the next begins with a formula, by its opening or by its position |
| PublicationUnits.MergedHolds | atomic_publication.py:135-140 | merging gives each unit exactly the pieces linked together, in order |
| PublicationUnits.PublicationUnits | atomic_publication.py:22-159 | the whole grouping with claim lists and completeness flags |
| UnitNotation.UnitLists | atomic_publication.py:150-158 | a unit lists exactly the claims that share a stretch with it |
| UnitNotation.RuleIsRead | atomic_publication.py:145-146 | a line drawn as columns of three or more dashes with optional colons, bars between them and perhaps at the ends, is the rule of a table |
| UnitNotation.RuleIsDrawn | atomic_publication.py:145-146 | every table rule can be drawn so |
| UnitNotation.ScaffoldIsRead | atomic_publication.py:142-146 | what may stand between claims is exactly blank lines and such rules |
| UnitProperties.UnitsPartition | atomic_publication.py:106-140 | units are trimmed and disjoint, and every visible character lies in exactly one |
| UnitProperties.NeighboursShareIffLinked | atomic_publication.py:113-140 | neighbouring pieces share a unit if and only if a claim or a colon links them |
| UnitProperties.ClaimIsWhole | atomic_publication.py:113-119 | a trimmed claim lies in one unit, which lists it, and overlaps no other |
| UnitProperties.ItemIsWhole | atomic_publication.py:72-104 | all visible text of a list item with its continuations lies in one unit |
| UnitProperties.UnitsAreSeparate | atomic_publication.py:106-140 | between consecutive units there is a cut and no claim overlaps both |
| UnitProperties.FullyClaimedCovers | atomic_publication.py:142-159 | in a fully claimed unit every character is in one of its claims, or the whole text around it between two claims, or a claim and an end of the unit, asserts nothing |
| AnswerStructure.FindHeadings | grounding_verifier.py:944-967 | the loop with its stack computes the outline |
| AnswerStructure.OutlineIsGood | grounding_verifier.py:944-967 | headings come in order, and the parent of each is the title directly before it, else the nearest earlier heading of smaller level |
| AnswerDivisions.LevelIsRead | grounding_verifier.py:947-950 | a heading has the level of its number signs, and a bold one level seven |
| AnswerClaims.HeadingsForest | grounding_verifier.py:944-967 | for every draft the headings form a forest whose parents lie strictly before |
| AnswerClaims.UsedHeadings | grounding_verifier.py:1018-1025 | one backward pass finds exactly the headings that are above some body text |
| AnswerClaims.AllPieces | grounding_verifier.py:1004-1030 | the pieces are exactly the body text, each piece under the heading before it, and the headings above no body text, in order; every heading is above some body text or is itself a piece |
| AnswerClaims.ContextIsLast | grounding_verifier.py:975-977 | a piece stands under the last heading that starts at or before it, and under none if every heading starts later |
| AnswerClaims.BodyIsExact | grounding_verifier.py:1007-1017 | body text is exactly what stands between two consecutive divisions, without its blank ends, if it is neither a heading nor a bare number and has a letter or digit outside citations, under the heading before it |
| AnswerDivisions.DivisionsDecide | grounding_verifier.py:988-1003 | the answer is divided exactly at its ends, at the ends of code and headings, and at both ends of every open gap between paragraphs, sentences or before a list item, save after a list number |
| AnswerDivisions.SentencesFrom | grounding_verifier.py:995 | the sentence gaps are exactly the white space between a full stop and a sign that begins a sentence |
| AnswerDivisions.ListsFrom | grounding_verifier.py:996 | the list gaps are exactly the line feeds before a bullet or number with white space after it |
| AnswerClaims.NothingEscapes | grounding_verifier.py:1004-1017 | every visible character lies in a piece of body text, in a heading, or in a text between consecutive divisions that is as a whole a bare number or, without its citations, has no letter or digit |
| AnswerClaims.WordsAreAssessed | grounding_verifier.py:1004-1017 | a letter or digit is in body text, in a heading, in such a bare number, or taken away with the citations |
| AnswerClaims.ChainIsAbove | grounding_verifier.py:979-984 | context chains are finite, ascend, and hold exactly the headings above |
| AnswerClaims.ContextChain | grounding_verifier.py:979-984 | the loop computes the chain |
| Publication.BuildStructure | grounding_verifier.py:1004-1039 | the claims are the first 100 of the body pieces, each under the heading before it, and of the uncarrying headings in order of start, with valid chains; below the cap nothing assessed is dropped |
| Publication.CollectPublished | grounding_verifier.py:1561-1575 | the loop over units keeps exactly the claims of publishable units and renders exactly those units and the headings above their claims |
| Publication.RenderOriginalSpans | atomic_publication.py:169-178 | the rendering loop computes the joined text with original blank gaps |
| Publication.RenderIsLaid | atomic_publication.py:169-178 | what is rendered is the texts of the spans, each in one stretch, in their order, with only white space between |
| Publication.TaskPublication | grounding_verifier.py:1510-1583 | the gate from structure to released text |
| PublicationRules.QualifiedDecides | grounding_verifier.py:1528-1560 | a claim qualifies if and only if it has one supporting and one matching check under its own headings, a citation, nothing said against it or a heading above it, and no invalid citation there |
| PublicationRules.PublishedDecides | grounding_verifier.py:1567-1575 | exactly the fully claimed units whose claims all qualify are published, and exactly their claims are kept |
| PublicationRules.FirstHundred | grounding_verifier.py:1030-1036 | the claims are all pieces in order of start, or the first hundred of them |
| PublicationRules.GroupingIsTold | grounding_verifier.py:1562-1565 | the grouping is told the claims with their places, the headings above some claim, the formulas and the checked formulas in the answer |
| PublicationRules.LeadIsGap | atomic_publication.py:169-178 | between two spans stand the blanks of the answer, or an empty line where text was left out |
| PublicationSoundness.BodyIsJustified | grounding_verifier.py:1510-1583 | a released body is the published units and the headings above their claims, sorted, each laid out in one stretch with only white space between; every visible place of them lies in a published claim with exactly one supporting and one matching check, in a heading above such a claim, or in a table rule between the claims of a published unit |
| PublicationSoundness.KeptIsShownWhole | grounding_verifier.py:1561-1575 | a published claim without blank ends lies whole in one of the spans shown |
| PublicationSoundness.ShownOnceIff | grounding_verifier.py:1561-1575 | no place of the answer is shown twice if and only if every published unit that meets a heading above a published claim is exactly that heading |
| PublicationSoundness.BlankTitleIsShownTwice | grounding_verifier.py:1561-1575 | a published title with a blank at its start is shown twice when another published claim stands under it |
| TitleCuts.NoCutInTitle | atomic_publication.py:53-104 | no cut between publication units falls inside a title line outside formulas |
| TitleCuts.BodyMissesHeadings | grounding_verifier.py:986-1017 | no division falls inside a heading, so no body text shares a character with one |
| PublishedTitles.TitleIsWhole | atomic_publication.py:53-140 | all visible text of a title outside formulas lies in one unit |
| PublishedTitles.ShownOnceDecides | grounding_verifier.py:1561-1575 | for the structure of a draft, no place of the answer is shown twice if and only if every published title above another published claim has a unit that is exactly the title |
| RepeatedTitle.TitleIsShownTwice | grounding_verifier.py:1561-1575 | the answer "  **A [E1]**", line feed, "**B [E1]**" with both titles supported and matching is released, and a place of it is shown twice |
| PublicationSoundness.KeptAreVouched | grounding_verifier.py:1526-1560 | every claim of a published unit has exactly one check of each kind with the right status and chain, a citation, no overlapping damning check, and no invalid citation mentioned in it or its headings |
| PublicationSoundness.CountIsHonest | grounding_verifier.py:1576-1583 | the count is the number of kept claims, and an answer not marked incomplete leaves no claim unvouched |
| PublicationSoundness.ScaffoldIsRuled | atomic_publication.py:142-146 | a visible character between claims is a dash, colon or bar of a line that is a table rule as a whole |
| SpanOrder.OrderedIsSorted | atomic_publication.py:172 | spans are rendered in order and none twice |
| CitationShields.FindInlineCode | answer_citations.py:54-72 | the loop over backtick runs pairs each with the next of its length, outside fences and earlier pairs |
| CitationShields.Merge | answer_citations.py:74-79 | joining sorted spans gives spans with gaps between them that cover the same places |
| CitationShields.IndexClosers | answer_citations.py:80-96 | the index lists exactly the places where each closing quote may end a quotation |
| CitationShields.FindLiterals | answer_citations.py:98-137 | the scan with its interval pointer finds the formulas and quotations outside code |
| CitationShields.FindShields | answer_citations.py:40-145 | the merged spans cover exactly the literal parts |
| CitationMeaning.QuotationsAre | answer_citations.py:80-137 | where no formula begins, a quotation runs from its mark to the first partner that may close it, in the five pairs and with the rule for apostrophes |
| CitationMeaning.NextRunIsFirst | answer_citations.py:57-63 | inline code is closed by the first later run of exactly as many backticks |
| CitationSwap.FencesSwap | answer_citations.py:41-52 | replacing a bracket keeps every code fence, even when the bracket holds line separators |
| CitationSwap.InlineSwap | answer_citations.py:54-72 | replacing a bracket keeps every inline code span |
| CitationSwap.LiteralsSwap | answer_citations.py:98-137 | replacing a bracket keeps every formula and quotation |
| CitationSwap.ShieldedSwap | answer_citations.py:40-145 | replacing one bracketed identifier list by another moves no text into or out of protection |
| Citations.ResolvesExactly | answer_citations.py:193-213 | a group resolves if and only if all its tokens do, to exactly their sources, each once, counting at least one passage if it has one |
| CitationMeaning.ResolveMeans | answer_citations.py:195-213 | a token, trimmed and capitalised, stands for the source of a passage of the snapshot, or for itself as a known source, and otherwise for nothing |
| CitationMeaning.EveryGroupIsNamed | answer_citations.py:193-196 | every bracket is cut at commas and semicolons into tokens that each have a name |
| CitationMeaning.ConversionDecides | answer_citations.py:193-216 | a group converts if and only if it has at most 4096 characters and 32 tokens and the snapshot knows every name; it becomes their sources, each once in order of first appearance, and the passages are counted |
| CitationMeaning.NothingInvented | answer_citations.py:200-213 | every source written is the value of a known passage or a known source |
| CitationMeaning.CiteIsWritten | answer_citations.py:215 | sources are written in one bracket, a comma and a blank between them |
| Citations.ConvertGroup | answer_citations.py:193-213 | the loop over tokens computes the conversion |
| Citations.FindGroups | answer_citations.py:148-163 | the search finds exactly the passage citations outside literal parts, links and images |
| CitationMeaning.GroupIsBracketed | answer_citations.py:17 | a group is exactly a single bracket on one line without brackets in it |
| CitationMeaning.MarkedIsFound | answer_citations.py:18 | a bracket with E, a colon and P after its start or a separator cites passages |
| CitationMeaning.FoundIsMarked | answer_citations.py:18 | every bracket that cites passages is so marked |
| Citations.NormalizeAnswer | answer_citations.py:171-222 | the rewriting loop computes answer, count and invalid references |
| CitationMeaning.UniqueIsOnce | answer_citations.py:222 | invalid references are reported once each, in the order of first appearance |
| CitationNormalForm.GroupsSwap | answer_citations.py:148-163 | converting one group leaves every other citation, in its place |
| CitationNormalForm.NormalizeTwice | answer_citations.py:171-222 | a second pass changes nothing, converts nothing and reports exactly the same invalid references |
| CitationNormalForm.NothingConverted | answer_citations.py:192-222 | a count of zero means the answer is unchanged |
| Packing.CloseIsLeast | evidence_selection.py:1404-1413 | the closure is the least closed set that holds the positions |
| Packing.NativeClosure | evidence_selection.py:1404-1413 | the work list computes the closure, in whatever order it is emptied |
| Packing.MergePackets | evidence_selection.py:1436-1443 | the components are pairwise disjoint, hold every packet whole, and are the finest such sets |
| Packing.TotalGrows | evidence_selection.py:1477-1479 | what a packet would bring the selection to never falls as the selection grows |
| Packer.ExpandIsClosed | evidence_selection.py:1451-1471 | with exclusions or preferred components a packet is closed under dependencies, and holds components whole |
| Packer.ExpandIsClosure | evidence_selection.py:1467-1471 | with exclusions only, a packet is exactly the closure of what is asked for |
| PackerMeaning.PlainPacket | evidence_selection.py:1467-1469 | without exclusions and components a packet is what is asked for, its groups, and the guards of all of that, followed no further |
| PackerMeaning.WholePacket | evidence_selection.py:1452-1466 | with components it is the least set with every block's group, guards and component |
| PackerMeaning.GuardedPacket | evidence_selection.py:1467-1471 | with exclusions only it is the least set with every block's group and guards |
| PackerMeaning.CostIs | evidence_selection.py:1478 | a block costs its characters and 21 for the marker, and blocks together what they cost apart |
| Packer.ReservedKeeps | evidence_selection.py:1448-1491 | every step keeps size equal to cost within budget, excluded blocks outside unless promoted, selections closed, components whole, and unfit marks true |
| Packer.ShortcutIsExact | evidence_selection.py:1459-1460 | skipping unfit components refuses exactly what the full check would refuse |
| Packer.RunKeeps | evidence_selection.py:1448-1491 | every run of requests keeps all of that |
| Packer.EntersByMandate | evidence_selection.py:1474-1488 | an excluded block enters only through a mandatory request whose packet holds it |
| Packer.RefusedStays | evidence_selection.py:1448-1491 | what is refused stays refused while nothing mandatory is reserved |
| Packer.ExcerptFits | evidence_selection.py:1578-1582 | the assembled excerpt never exceeds the budget |
| Packer.Packer.Reserve | evidence_selection.py:1448-1491 | the method's new state is the specified one |
| Packer.Packer.Fill | evidence_selection.py:1559-1565 | in the order of relevance each block, the one before it and the two after it are offered, and afterwards every block that is neither chosen nor a header would be refused |
| Packer.Packer.Assemble | evidence_selection.py:1576-1582 | the excerpt is exactly the chosen blocks, in source order, with markers exactly at omissions, within the budget |
| PackerMeaning.ExcerptGrows | evidence_selection.py:1579-1581 | each further block follows an empty line if it is the next of the source, and the marker otherwise |
| QueryCoverage.AcceptAddsGain | query_rank.py:361-372 | accepting a record adds exactly its gain |
| QueryCoverage.GainFalls | query_rank.py:361-366 | the gain never rises as others are accepted, and is monotone in the ranks |
| SelectionMeaning.ScoreIs | query_rank.py:365 | the score times one more than the rank is one |
| SelectionMeaning.CoverageIs | query_rank.py:368-372 | a query is covered by the best record accepted for it |
| SelectionMeaning.WeightsAre | query_rank.py:341-347 | the original query weighs one, and the other groups share one equally |
| QueryCoverage.LaterGainsLess | candidate_admission.py:103-110 | a record is worth no more, and never less than nothing, when it is chosen later |
| QueryCoverage.TotalAtMostTwo | query_rank.py:340-347 | with the source's weights the total never exceeds two |
| QueryCoverage.BestIsPreferred | candidate_admission.py:103-110 | the chosen record is preferred to every other that fits and gains |
| SelectionMeaning.WorthIs | candidate_admission.py:103-106 | a record is worth choosing if and only if it fits and accepting it raises the total, by exactly its value |
| SelectionMeaning.PreferenceIs | candidate_admission.py:109-110 | more per character wins, then more altogether, then the earlier place |
| QueryCoverage.GreedyIsSound | candidate_admission.py:101-118 | chosen and left are a permutation, the chosen fit the budget, coverage is that of accepting them in turn, the total grows by exactly their gains, and nothing left still fits and gains |
| QueryCoverage.GainsAtMostTwo | candidate_admission.py:101-118 | all gains of a selection together are at most two |
| QueryCoverage.OrderByCoverage | candidate_admission.py:101-118 | the loop computes the greedy order |
| QueryFrontiers.Interleave | candidate_admission.py:41-49 | a queue holds the records of all its lists once, in the order of their best depth |
| SelectionMeaning.RawTurnIs | candidate_admission.py:56-67 | the original query's turn picks the first record of its queue that is new and fits, drops those before it, and empties the queue if there is none |
| SelectionMeaning.OtherTurnIs | candidate_admission.py:56-67 | the same for a paraphrase; the other queues stay |
| SelectionMeaning.ServedOrSpent | candidate_admission.py:56-67 | one of the two is the case for every queue |
| SelectionMeaning.StartIs | candidate_admission.py:50-53 | at first nothing is picked or used |
| QueryFrontiers.Schedule | candidate_admission.py:50-72 | the loops take the specified turns in the specified order; slots and characters are respected; the original query keeps at least as many picks as all paraphrases together while it has records; paraphrases with records differ by at most one; with slots left nothing offered still fits |
| QueryFrontiers.ResultIsPermutation | candidate_admission.py:73 | picked records followed by the others are all records, each once |
| EvidenceRegistry.StatesGrow | corrective_rag.py:167-216 | at all times names are distinct and numbered, and no name given is changed |
| EvidenceRegistry.DroppedWouldNotFit | corrective_rag.py:198-207 | no dropped record would still fit at the end |
| EvidenceRegistry.DuplicateIff | corrective_rag.py:183-197 | a usable record is a duplicate if and only if one of the same identity was admitted before |
| EvidenceMeaning.FatesAre | corrective_rag.py:177-211 | a deleted or blank record is never admitted, a second of an admitted identity is a duplicate, one that does not fit is dropped, and exactly the others are admitted |
| EvidenceMeaning.TallyCounts | corrective_rag.py:188-213 | every count counts what it is named after |
| EvidenceMeaning.NamesAre | corrective_rag.py:210 | names are E and a decimal number from 1 on |
| EvidenceRegistry.Tally | corrective_rag.py:172-216 | the counts balance |
| EvidenceRegistry.Registry.Assign | corrective_rag.py:167-216 | a call on a registry of earlier rounds keeps its names, labels what it admits, stays within the budget and counts it |
| VersionChain.LinkIsUnique | db_store.py:626-653 | a version has one right predecessor |
| VersionMeaning.LinkMeans | db_store.py:626-653 | a named version points to the oldest of the versions of its scope, name and kind with the greatest smaller key, and to none if no key is smaller |
| VersionMeaning.LessIsSmaller | db_store.py:644-652 | keys are compared as tuples |
| VersionMeaning.GroupIs | db_store.py:612-623 | a change relinks the group under the trimmed name and kind, if there is a name, a kind and a key |
| VersionMeaning.PatchIs | db_store.py:839-855 | a new name or new metadata writes a new version and clears the link; nothing else changes |
| VersionMeaning.RefreshIs | db_store.py:665-702 | the backfill rewrites exactly the live rows whose version changed, and clears their links |
| VersionChain.NextLink | db_store.py:639-653 | the loop's remembered predecessor is right for the next version |
| VersionChain.Registry.Rebuild | db_store.py:626-653 | the versions of the group get their right predecessors and nothing else changes |
| VersionChain.Registry.Create | db_store.py:749-802 | all links of named versions stay right and tombstones are untouched |
| VersionChain.Registry.Update | db_store.py:822-871 | the same; exactly the links of the group left and of the group entered are made anew, and every other row is as it was |
| VersionChain.Registry.Tombstone | db_store.py:874-895 | the same for a version that is hidden for good, with the links of its group |
| VersionChain.Registry.Backfill | db_store.py:656-746 | every versioned row gets the right link in its stored group, so every named row gets the link that live changes keep; every other row is as the refreshed fields leave it |
| VersionChain.NamedGroupIsRight | db_store.py:626-653 | where the links of named versions are right, all links of such a group are, so its chains are those of the next two rows |
| VersionChain.ChainFalls | db_store.py:626-653 | keys fall strictly along a chain, so chains are acyclic |
| VersionChain.ChainVisits | db_store.py:626-653 | a chain visits every smaller key of its group, at the oldest version with it |
| VersionChain.LinkedIffNamed | db_store.py:612-653 | a new version is linked among those stored under its name if and only if the name is stored trimmed or there is nothing to link to |
| VersionChain.BlankNameIsMissed | db_store.py:612-653 | versions 1.0 and 2.0 of the file "— .pdf", whose family keeps its blank: the newer misses its predecessor |
| JobProtocol.RunIsSound | persistence.py:252-281 | in every run the request flag and the finish time stay, a terminal job has a finish time, who was told to cancel only closes, and who left a write running had not been told if it completes |
| JobProtocol.TerminalIsFinished | persistence.py:252-281 | in every run from the beginning a terminal job has a finish time |
| JobProtocol.ToldNeverCompletes | ingestion_worker.py:20-113 | a delivery one of whose reads follows an accepted request never writes a completed job or a ready document, nor has it left such a write running |
| JobProtocol.CompletesIffCommitted | ingestion_worker.py:43-86 | after an accepted request the job can still be completed if and only if it is already, a delivery is past its first read and not before a poll, or a completing write was left running by an aborted caller; the document likewise |
| JobProtocol.ClosedForGood | jobs.py:120-131 | after an accepted request the job is never completed and the document never ready if and only if neither is the case, no delivery is committed and no such write is left running |
| JobProtocol.CancelledCanComplete | persistence.py:252-259 | a run in which a job closed as cancelled completes afterwards |
| JobProtocol.QuietCanComplete | ingestion_worker.py:71-91 | a run in which every delivery and the call of cancel are over, the job is closed as cancelled, and a write left running by an aborted delivery completes it |
| JobOutcomes.FailureIsRecorded | ingestion_worker.py:99-107 | a delivery that fails inside the guarded block records a failed job and a broken document and is over |
| JobOutcomes.AbortIsRecorded | ingestion_worker.py:92-98 | one that is aborted there records a cancelled job and a withdrawn document |
| JobOutcomes.UnguardedEnds | ingestion_worker.py:24-48 | before that block neither records anything |
| JobOutcomes.RequestIsObeyedFirst | ingestion_worker.py:30-38 | a request read first thing is recorded as cancelled and withdrawn |
| JobOutcomes.RequestIsObeyedLater | ingestion_worker.py:57-63 | so is one read while waiting |
| JobOutcomes.BeginningIsRecorded | ingestion_worker.py:39-52 | a delivery first records a running job, then a document in work |
| JobOutcomes.WaitingChangesNothing | ingestion_worker.py:54-71 | waiting changes neither status |
| JobOutcomes.SuccessIsRecorded | ingestion_worker.py:72-91 | a subprocess that ended leads to a completed job, then a ready document |
| JobOutcomes.RefusedCancel | jobs.py:120-131 | a call on an ended job is refused and changes nothing |
| JobOutcomes.AcceptedCancel | jobs.py:120-131 | a call on any other sets the request, aborts the delivery, then closes the job and the document |
| JobOutcomes.LeftCallLands | ingestion_worker.py:92-107 | a write that is left running does, when it lands, what it would have done |
| JobProtocol.Service.Replay | ingestion_worker.py:20-113 | performing any events in place, on a store whose record is assigned field by field, goes through the specified states, never withdraws a request, and leaves a finish time on a terminal job |
| WriterPayload.PackRestores | prompt_payload.py:62-80 | restoring a packed item gives the item back |
| WriterPayload.CandidateIsDecodable | prompt_payload.py:97-142 | the strict decoder accepts whatever the encoder interns |
| WriterPayload.DecodeEncode | prompt_payload.py:44-142 | decoding what was encoded returns the payload, for every payload and every size test |
| WriterPayload.SharedExactly | prompt_payload.py:62-73 | exactly the repeated groups are interned, each once |
| PayloadMeaning.RepeatedIs | prompt_payload.py:61-62 | a group is shared if and only if it is not empty and two items have it |
| PayloadMeaning.GroupIs | prompt_payload.py:38-41 | the group of an item is exactly its texts under file, file_name and file_path |
| PayloadMeaning.PackIs | prompt_payload.py:75-83 | an item with the i-th group has the reference S(i) in place of its source names, and all else as it was |
| PayloadMeaning.PackKeeps | prompt_payload.py:67-70 | any other item stays as it is |
| PayloadMeaning.CatalogueIs | prompt_payload.py:71-74 | the catalogue lists exactly the groups, in order, as S1, S2 and so on |
| PayloadMeaning.RefNamesAre | prompt_payload.py:72 | references are S and a decimal number |
| PayloadMeaning.EncodeDecides | prompt_payload.py:51-94 | a payload is interned if and only if it has no reserved keys, some source names are shared, and the result is shorter |
| PayloadMeaning.CandidateIs | prompt_payload.py:84-90 | the interned payload is the packed evidence, the catalogue, and all else as it was |
| PayloadMeaning.DecodableDecides | prompt_payload.py:108-140 | the strict decoder accepts exactly catalogues of well-formed entries that every reference resolves in and every entry is used twice from |
| PayloadMeaning.RestoreIs | prompt_payload.py:125-138 | in place of its reference an item has the names of the entry, and all else as it was |
| WriterPayload.EncodePayload | prompt_payload.py:44-94 | the encoder's loop computes the encoding |
| WriterPayload.DecodePayload | prompt_payload.py:97-142 | the decoder's loop computes the decoding |
| Decimals.DecimalsDiffer | prompt_payload.py:71-73 | numbered names are distinct |

## Left out

- Input and output: HTTP routes, queues, SQL text, subprocesses, document readers and model calls; rows are maps and subprocess outcomes are events.
- Formula text: the models start from tokens (`_tokens`, `normalize_formula` and the LaTeX rewriting are not part of this model), and the fallback comparison of notation outside the parser is stated on lexemes.
- Formula order: a structural total order stands for sorting by `repr`; only that it is total matters.
- Decimal arithmetic: exact reals with an infinity; rounding at 32 digits, the sign of zero and the recursion limit are not modelled.
- `build_numeric_rules`, `_native_math_runs` and the extraction of formulas from text: rules and source formulas are inputs.
- `parse_table_unit`, `_MATH` and `_CITATION` in the publication code: parameters of the model, as any predicate, span list or text function.
- Decimal digits in patterns are ASCII, and case folding is ASCII.
- `resolve_passages`, `build_evidence_anchors`, `evidence_anchor_payload`: lookups in the list of passages.
- `expand_rejected_spans`, `safe_partial_answer` and the wording of the notices: one filter and fixed text; the notice is the flag `incomplete` of the outcome.
- Task and answer hashes: the authorisation to publish is a parameter of the gate.
- Packer: which blocks are excluded, their dependencies, the preferred packets and the order of requests are inputs; the source extends the guards once in the middle of a packing without exclusions, and the invariants on closedness are therefore stated for a plan that does not change.
- `_focused_excerpt` diagnostics, `_preferred_native_packets` matching and all scores: lexical heuristics.
- Query ranks: recording of rows, packed receipts and witnesses; a candidate comes with the ranks that `origins` gives it, which is also what accepting it credits.
- `apply_candidate_ordering` and `_record_key`: a check that a callback returned a permutation.
- Sample hashes of dropped records and the rounds of `run_corrective` around the registry.
- Registry of documents: visibility and permission checks, and the other columns; an identifier and a creation time are given by the database.
- Jobs: the generation and deletion workers, progress values and error texts; a write whose reply is lost counts as a failure that leaves the write running.
- Writer payload: the JSON text layer; values stand for their compact text, and objects are unordered as in section 4 of RFC 8259.
