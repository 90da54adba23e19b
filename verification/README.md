# Verified models of lexic's compile and generate cores

lexic compiles grammars into parsers, generators and reducers.  This project models
the parts of it whose correctness rests on an argument rather than on one branch, and
proves those arguments.

Everything about grammars rests on `Grammars`: rules, arms, quantified items and nested
groups, with a rule's language given by derivation trees.

| module | what it models |
|---|---|
| `Heights`, `Completing`, `Generator`, `Filler`, `Spill` | string generation: rule heights, the free random walk, the size-steered walk and its budget sharing |
| `Lift` | the rewrite of optional nullable references before normalisation |
| `Reachability`, `Listings` | the memoised reference walk of the reduce analysis over every order it may take, and the generator's closure loop |
| `Reduction`, `Liveness`, `ReducedText`, `Purging`, `PoisonRuns` | which rules reduce to the text they match, and when a run may stay raw text |
| `Rewrites`, `Hoisting`, `GroupNaming` | hoisting runs and naming groups without changing any language |
| `Folding`, `FoldedVariants` | the fold over what the variant parses to, against the value of the original tree |
| `PrivateCopies` | the memoised structural copy of a cyclic object graph |
| `Emission`, `RoundTrip`, `Census` | stack machines over models: addressed emission and what it gives back of a parsed text, and the identity census |
| `Caches`, `CompileOnce` | identity memos: ownership and release, and the per-key compile lock as thread steps |
| `CharSets`, `LexerRuns` | interval sets, partition refinement, and the two-tier lexer's tokens |
| `Pretokens` | hand-written pre-tokenizers against the patterns they stand for |

Random draws are nondeterministic choices, so a result about a generator holds for every
sequence of draws.  Thread scheduling is an arbitrary sequence of steps.  Object
identities are values, so that `is` is equality of identities and a recycled address is
an equal address.

Below, a grammar is closed when every reference is defined and no character class is
empty.  A reference is live when some derivation tree takes it, and a rule loses text when
live references lead from it to a dropped rule that spells something.  Where a contract
asks that every quantifier admit some count, as in `Heights`, `Generator` and `Lift`, the
rows do not repeat it.

## Where the code does less than it says

Each of these is a lemma with a concrete input, beside the exact condition under which
the promise holds.

- The lift is described as language-preserving.  It is exactly when the nullable rules
  rest on one another without a circle, an optional reference to one counting as required
  (`Lift.LiftPreservesExactly`); cyclic nullability can break it
  (`Lift.CyclicLiftLosesEmpty`), acyclic references never do
  (`Lift.AcyclicLiftPreservesLanguages`).
- The reach table is described as the transitive closure.  On a cycle it can hold a
  partial answer (`Reachability.CycleLeavesPartialAnswer`); it is the closure in every
  order exactly when no stack of rules under way cuts a rule off from what it reaches
  (`Listings.ClosureInEveryOrder`).
- Then a run's sub-grammar can lack a rule it names (`Listings.SubGrammarCanMissRules`;
  exactly when none does: `Listings.SubGrammarsClosedInEveryOrder`), and a rule can be
  called text-equivalent although its value loses text
  (`ReducedText.CyclicVerdictLosesText`; exactly when none is, for one table:
  `ReducedText.VerdictsRightExactly`, for every order, where rules above dropped ones yield
  and lose text: `ReducedText.RightInEveryOrderExactly`).
- Marking a rule gives dropped text back where it loses text: a rule with a channel-free
  body above a dropped rule (`Folding.MarkAboveDropReturnsText`), or one wrongly called
  text-equivalent (`Folding.CyclicMarkShows`).  Exactly when no mark does:
  `Folding.CollapseKeepsExactly`.
- A hoisted run takes one place where its elements took many, and a body that counts its
  arguments sees it (`FoldedVariants.CountingBodySees`).  Exactly when the whole
  derivation is unseen: `FoldedVariants.UnseenExactly`; a body that joins sees nothing
  (`FoldedVariants.JoinsDoNotSee`).
- A failing arm's lead is taken as poison even where its item is optional.  A poison-free
  run can then come from that arm and lose its text
  (`PoisonRuns.OptionalLeadSlipsThrough`).  It cannot come from there exactly when the arm
  derives nothing once the poison is taken out of the grammar
  (`PoisonRuns.FreeRunsProvenExactly`), which the rule heights decide
  (`PoisonRuns.HeightsDecideProven`, on closed grammars); runs keep their text exactly when
  every poison-free tree shows as its own (`PoisonRuns.FreeRunsAreTextExactly`).
- Naming groups defines a rule twice where a rule is called like a group of another
  (`GroupNaming.GroupCanClash`; exactly when it does not: `GroupNaming.NamedRulesDistinct`).
- Round trips are promised for every valid input.  A record with no field set reads as its
  rule's empty arm, so text its literals matched is not given back
  (`RoundTrip.EmptyBracketsVanish`).  A tree is given back exactly when no record of it is
  so (`RoundTrip.RoundTripsExactly`), every tree of a grammar exactly when no rule can
  swallow (`RoundTrip.AlwaysRoundTrips`, `RoundTrip.SwallowsExactly`).
- An identity claimed by one owner and adopted under another is released with the other
  (`Caches.AdoptedClaimIsLost`; exactly when claims are kept: `Caches.ClaimsKept` for one
  event, `Caches.ClaimsHeldExactly` for a run).

## Model

| member | source | states |
|---|---|---|
| `Heights.RuleHeights` | src/lexic/generate/__init__.py:225-239 | the fixpoint loop ends, and what it returns solves the height equations over naturals and infinity |
| `Heights.SolutionUnique` | src/lexic/generate/__init__.py:208-239 | the equations have one solution, whatever order the rules are visited in |
| `Heights.CostIsLeast` | src/lexic/generate/__init__.py:175-222 | no derivation tree of an atom expands fewer rules than its cost, counting one occurrence of each required item |
| `Heights.CostIsReached` | src/lexic/generate/__init__.py:175-222 | on a closed grammar a finite cost is met by some derivation tree |
| `Heights.HeightIsLeastWeight` | src/lexic/generate/__init__.py:225-239 | on a closed grammar a height is the least weight of a derivation tree of its rule, and finite exactly when the rule has one |
| `Completing.HeightsOfAnyGrammar` | src/lexic/generate/__init__.py:180-239 | on every grammar, closed or not: a height is the least weight of a tree of the grammar with an empty literal in place of every undefined reference and empty class, and finite exactly when that grammar derives something from the rule |
| `Completing.CompleteSolves` | src/lexic/generate/__init__.py:180-187 | that grammar has the same heights: what is missing costs nothing |
| `Heights.DemandsStayBelow` | src/lexic/generate/__init__.py:230-239 | lowering one height to its demand keeps every demand at or below its height |
| `Heights.LoweringCounts` | src/lexic/generate/__init__.py:230-239 | every lowering shrinks the pair of infinite heights and finite sum that bounds the loop |
| `Generator.PickCount` | src/lexic/generate/__init__.py:74-93 | a fixed count as it is; else the lower bound or past it, at most by two and within the upper bound, each such count coming of some draw |
| `Generator.OpenArms` | src/lexic/generate/__init__.py:242-262 | the arms offered are exactly the terminating ones, only those of least cost once the depth is spent; refused with no arms or with none that terminates |
| `Generator.MinimalArmIsOpen` | src/lexic/generate/__init__.py:255-262 | some arm has the least cost, and none has less |
| `Generator.ArmedIsFinite` | src/lexic/generate/__init__.py:220-222 | over productive rules a body with arms, nested groups included, has finite cost |
| `Generator.Run` | src/lexic/generate/__init__.py:281-296 | always ends, at any depth and under any draws; the string is in the rule's language, an undefined rule is refused by name, a bottomless one for its reason, an assured rule is never refused, and with the depth spent a rule of finite height is refused only over an undefined rule or an empty class |
| `Generator.Expand` | src/lexic/generate/__init__.py:298-312 | always ends; the string is spelled by one arm of the body, and a body that cannot refuse does not |
| `Generator.ExpandItem` | src/lexic/generate/__init__.py:115-146 | always ends; the string is a run of the atom its quantifier admits |
| `Generator.ExpandAtom` | src/lexic/generate/__init__.py:115-146 | one occurrence of an atom, a reference one level deeper, a group at the same depth; always ends with a string of the atom or a refusal |
| `Generator.ChooseArm` | src/lexic/generate/__init__.py:298-312 | the arm drawn of the terminating ones, of least cost once the depth is spent, each of them coming of some draw; refused exactly when none terminates |
| `Generator.Generate` | src/lexic/generate/__init__.py:319-352 | a free generation ends with a string of the rule's language or a refusal; at the start a defined rule is refused for having no arms or looping exactly when the completed grammar derives nothing from it, an undefined name only ever refused by that name; never a rule among defined, productive rules with no empty alternation |
| `Lift.NullableNames` | src/lexic/parsing/pda/analysis/predicates.py:79-90 | the growing set ends at exactly the rules whose language holds the empty string |
| `Lift.EmptyIsNullable` | src/lexic/parsing/pda/analysis/predicates.py:93-113 | a tree spelling nothing shows its atom nullable |
| `Lift.NullableIsEmpty` | src/lexic/parsing/pda/analysis/predicates.py:93-113 | a nullable atom has a tree spelling nothing |
| `Lift.LiftAddsNothing` | src/lexic/parsing/lift.py:35-76 | every tree of the lifted grammar is a tree of the original |
| `Lift.LiftSubset` | src/lexic/parsing/lift.py:35-76 | the lift adds no string to any rule |
| `Lift.LiftNode` | src/lexic/parsing/lift.py:35-76 | where every nullable rule stays nullable, every original tree has a lifted tree spelling the same |
| `Lift.LiftPreservesLanguages` | src/lexic/parsing/lift.py:38-42 | all languages are kept exactly when every nullable rule is still nullable after the lift |
| `Lift.LiftOptionalNullables` | src/lexic/parsing/lift.py:35-76 | the lift, and a decision of whether it kept every language |
| `Lift.LiftPreservesExactly` | src/lexic/parsing/lift.py:38-42 | on the grammar itself: all languages are kept exactly when the nullable rules can be ranked so that each has an arm whose items, optional references to nullable rules counted as required, are empty through rules of lower rank |
| `Lift.RankedNullabilityKept` | src/lexic/parsing/lift.py:50-61 | a rule so ranked stays nullable |
| `Lift.NextToRank` | src/lexic/parsing/lift.py:50-61 | while rules nullable after the lift remain unranked, one of them rests on the ranked ones |
| `Lift.AcyclicLiftPreservesLanguages` | src/lexic/parsing/lift.py:38-42 | with no nullable rule reaching itself through references between nullable rules, all languages are kept |
| `Lift.LiftIsIdempotent` | src/lexic/parsing/lift.py:35-76 | lifting twice is lifting once |
| `Lift.LiftSettlesOptionals` | src/lexic/parsing/lift.py:39-42 | item positions and atoms are kept, and an optional reference left over is to a rule without the empty string on either side |
| `Lift.CyclicLiftLosesEmpty` | src/lexic/parsing/lift.py:50-61 | with A ::= "x" or B? and B ::= A? the lifted A has lost the empty string |
| `Reachability.ReachTable.Reachable` | src/lexic/compile/reduction.py:157-168 | the memoised walk, filling the table in place, is the function Explore |
| `Reachability.ReachTable.FillAll` | src/lexic/compile/reduction.py:145-154 | the table filled rule by rule is ReachMap |
| `Reachability.ExploreIsTruthful` | src/lexic/compile/reduction.py:157-168 | on any graph and from any truthful memo: only reached rules are named, and a rule reaching no cycle has its whole closure |
| `Reachability.ReachMapIsTruthful` | src/lexic/compile/reduction.py:145-154 | so does the whole table, whatever the order of the rules |
| `Reachability.AcyclicReachMapIsExact` | src/lexic/compile/reduction.py:157-168 | on an acyclic graph the table is the transitive closure |
| `Reachability.CycleLeavesPartialAnswer` | src/lexic/compile/reduction.py:157-168 | in the ring A to B, B to C, C to A with A to D, the table gives C only A although C reaches D |
| `Listings.ShownInEveryOrder` | src/lexic/compile/reduction.py:145-168 | every rule reaching one of some targets has one in its entry, in every order of rules and references, exactly when no stack of rules under way stands between a rule and all targets it reaches |
| `Listings.ClosureInEveryOrder` | src/lexic/compile/reduction.py:145-168 | the table is the transitive closure in every order exactly when no stack of rules under way cuts a rule off from any rule it reaches |
| `Listings.BrokenTable` | src/lexic/compile/reduction.py:157-168 | where a stack does, walking it first gives a table whose entry shows no target |
| `Reachability.ShapeClosure` | src/lexic/generate/sizing.py:229-242 | the in-place closure loop ends with exactly the transitive reference relation, and the recursive rules are exactly those reaching a cycle |
| `Reachability.Widened` | src/lexic/generate/sizing.py:237-241 | one widening names only reached rules and either changes nothing or shrinks what is missing |
| `Reachability.SettledIsExact` | src/lexic/generate/sizing.py:236-241 | a pass that changes nothing leaves the whole closure |
| `Reduction.Verdicts.TextEquiv` | src/lexic/compile/reduction.py:226-243 | ends on cyclic grammars, keeps every settled verdict right with rules under way read as refused, and answers the least-fixpoint verdict; fails only on an undefined rule |
| `Reduction.Verdicts.JoinTransparent` | src/lexic/compile/reduction.py:246-254 | answers whether every consumed item is a reference to a text-equivalent rule |
| `Reduction.Verdicts.Analyze` | src/lexic/compile/reduction.py:216-223 | every rule gets its verdict, independent of the order of the rules |
| `Reduction.Analysis.JoinEquiv` | src/lexic/compile/reduction.py:238-254 | a join is text-equivalent exactly when everything it consumes is |
| `Reduction.Analysis.EquivExactly` | src/lexic/compile/reduction.py:226-243 | case by case: a yielding rule exactly when its entry shows no dropped rule, a constant exactly when the rule is that one literal, a join exactly when all it names are, an action never; a dropped rule never |
| `Reduction.SingleLiteralExactly` | src/lexic/compile/reduction.py:186-193 | a rule is one plain literal exactly when it is one arm of that literal, once |
| `Reduction.ChannelOf` | src/lexic/compile/reduce/fold.py:403-441 | what a terminal, a dropped rule, any other rule and a group add to a channel |
| `Reduction.Analysis.NeedingItselfFails` | src/lexic/compile/reduction.py:230 | a rule whose argument needs itself has none: cycles refuse |
| `Reduction.Analysis.WithinGrows` | src/lexic/compile/reduction.py:226-254 | a verdict reached at some depth of joins holds at every greater depth |
| `ReducedText.EquivIsKept` | src/lexic/compile/reduction.py:226-254 | whatever the reach table says, on every tree of a rule called text-equivalent the value is the text of the tree with what dropped rules matched left out |
| `ReducedText.KeptIsTextExactly` | src/lexic/compile/reduce/fold.py:270-286 | on every grammar, a rule's trees keep all their text exactly when no live reference leads from it to a dropped rule that spells something |
| `ReducedText.EquivRightExactly` | src/lexic/compile/reduction.py:226-254 | on every grammar and with any reach table, a rule called text-equivalent has its text as value on every tree exactly when no live reference leads from it to a dropped rule that spells something |
| `Liveness.LiveReachesReach` | src/lexic/compile/reduction.py:145-154 | whatever live references lead to, the references of the grammar lead to |
| `Liveness.LiveArmIsFinite` | src/lexic/generate/__init__.py:208-239 | on a closed grammar, an arm derives something exactly when it costs finitely much |
| `Liveness.LiveItemIsFinite` | src/lexic/generate/__init__.py:208-239 | on a closed grammar, an item can occur exactly when its quantifier lets it and its atom costs finitely much |
| `ReducedText.TextEquivalentValueIsText` | src/lexic/compile/reduction.py:226-254 | with the analysis's own reach table all verdicts are right, if no text-yielding rule reaches both a cycle and a dropped rule |
| `ReducedText.TruthfulSeesDrops` | src/lexic/compile/reduction.py:234-235 | that condition on the grammar makes the table show every dropped rule it must |
| `ReducedText.VerdictsRightExactly` | src/lexic/compile/reduction.py:226-254 | on every grammar and with any reach table, all verdicts are right exactly when no yielding rule whose entry shows no dropped rule loses text through live references |
| `ReducedText.UnbrokenVerdictsAreRight` | src/lexic/compile/reduction.py:226-254 | whatever the order of the walk all verdicts are right, if no stack of rules under way cuts a rule off from all the dropped rules it reaches |
| `ReducedText.RightVerdictsAreUnbroken` | src/lexic/compile/reduction.py:226-254 | where verdicts are right in every order, no stack cuts a yielding rule that loses text off from all the dropped rules it reaches |
| `ReducedText.RightInEveryOrderExactly` | src/lexic/compile/reduction.py:226-254 | verdicts are right in every order exactly when no stack cuts a rule off from all the dropped rules it reaches, if every rule above a dropped one yields and loses text |
| `ReducedText.YieldIsTextExactly` | src/lexic/compile/reduce/fold.py:270-286 | a rule that yields its text yields all of it on every tree exactly when no live reference leads from it to a dropped rule that spells something |
| `ReducedText.KeptNode` | src/lexic/compile/reduce/fold.py:270-286 | where the live references of an atom lead to silent dropped rules only, what yielding keeps of its trees is the whole text |
| `ReducedText.CyclicVerdictLosesText` | src/lexic/compile/reduction.py:234-235 | in the ring, with D dropped, C is called text-equivalent and has a tree spelling "d" whose value is empty |
| `Folding.CollapseKeepsNode` | src/lexic/compile/reduce/fold.py:361-364 | collapsing markable rules to their text changes no value, no channel and no yielded text anywhere in any tree, if no mark but a dropped one loses text |
| `Folding.SpliceExactly` | src/lexic/compile/reduce/fold.py:474-484 | an empty run adds no argument, a poison-free one its text, any other its elements' values |
| `Folding.CollapseKeepsExactly` | src/lexic/compile/reduction.py:14-20 | on every grammar and with any reach table, collapsing markable rules is unseen in every tree exactly when no mark that is not dropped loses text |
| `Folding.MarkedRuleKeepsValue` | src/lexic/compile/reduce/fold.py:361-364 | a markable rule that loses no text has over the one text it matched the value it has over its channel |
| `Folding.MarkAboveDropReturnsText` | src/lexic/compile/reduction.py:195-204 | a marked channel-free rule above a dropped rule that spells something gives that text back to a rule yielding above it |
| `Folding.CyclicMarkShows` | src/lexic/compile/reduction.py:14-20 | in the ring, the rule wrongly called text-equivalent folds to "d" when marked, though its value is empty |
| `PoisonRuns.Conditional` | src/lexic/compile/reduction.py:334-353 | returns a poison set that licences the run, none exactly when no set does; fails only on an empty leading literal |
| `PoisonRuns.LeadIsFirst` | src/lexic/compile/reduction.py:301-313 | wherever the first item of an arm occurs, the lead is the very first character of the text |
| `PoisonRuns.LeadIsSpelled` | src/lexic/compile/reduction.py:301-313 | so a required lead starts every tree of its arm |
| `PoisonRuns.LeadExactly` | src/lexic/compile/reduction.py:301-313 | there is a lead exactly when the first item is a plain non-empty literal, or a reference to a rule that is one, and it is that literal's first character |
| `PoisonRuns.ArmRefExactly` | src/lexic/compile/reduction.py:289-298 | an arm counts as a reference exactly when it is one, once |
| `PoisonRuns.LicencesExactly` | src/lexic/compile/reduction.py:334-353 | a set licences the runs exactly when it is the leads of the arms not proven, each of which has one, beside some proven arm |
| `Purging.PurgedDerives` | src/lexic/compile/reduce/fold.py:474-484 | taking the poison out of a grammar's terminals leaves exactly the trees whose text is free of it |
| `Purging.FreeArmIsFinite` | src/lexic/compile/reduction.py:334-353 | on a closed grammar, an arm derives something free of the poison exactly when its cost over the purged grammar's heights is finite |
| `PoisonRuns.FreeRunsProvenExactly` | src/lexic/compile/reduction.py:334-353 | a poison-free run is derived through proven arms only, whatever the run, exactly when no other arm derives anything once the poison is taken out |
| `PoisonRuns.HeightsDecideProven` | src/lexic/compile/reduction.py:334-353 | on a closed grammar the rule heights of the grammar without the poison decide that |
| `PoisonRuns.PoisonFreeRunIsProven` | src/lexic/compile/reduction.py:334-353 | where the poison licences the runs, it is enough that every arm not proven leads with an item that must occur |
| `PoisonRuns.FreeRunsAreTextExactly` | src/lexic/compile/reduce/fold.py:474-484 | for an element not dropped, the raw text of every poison-free run is what its elements' values join to exactly when every poison-free tree of the element shows as its own text |
| `PoisonRuns.ProvenLeavesSlips` | src/lexic/compile/reduction.py:316-353 | where the samples speak for the rule and what proven arms refer to loses no text, every poison-free tree shows as its own text exactly when whatever slips through an arm not proven shows as its own text |
| `PoisonRuns.PoisonFreeRunIsText` | src/lexic/compile/reduce/fold.py:474-484 | for an element not dropped whose poison-free trees show as their text, the raw text of a poison-free run may stand for its elements' values in any channel that is joined |
| `PoisonRuns.ProvenArmIsText` | src/lexic/compile/reduction.py:316-331 | a tree through a proven arm has its text as value, if the samples speak for the rule and what proven arms refer to loses no text |
| `PoisonRuns.OptionalLeadSlipsThrough` | src/lexic/compile/reduction.py:301-313 | with e ::= c or "x"? c c reduced to its first argument, the run is licensed by x, and the poison-free run "aa" comes through the second arm and joins to "a" |
| `Rewrites.NodeTo` | src/lexic/compile/reduction.py:356-410 | every tree of the grammar has an image in the rewritten grammar, the same arms and leaves with groups named and runs hoisted, spelling the same |
| `Rewrites.NodeFrom` | src/lexic/compile/reduction.py:356-410 | and every tree of the rewritten grammar is the image of one of the original |
| `Rewrites.MirrorSpells` | src/lexic/compile/reduction.py:356-410 | a tree and its image spell the same |
| `Rewrites.RewriteKeepsLanguages` | src/lexic/compile/reduction.py:458-532 | a rewritten grammar gives every original rule the language it had |
| `Hoisting.Hoister.RunReplacement` | src/lexic/compile/reduction.py:356-380 | which items are replaced and by what, and the spec registered for them, nothing else changing |
| `Hoisting.Hoister.HoistRuns` | src/lexic/compile/reduction.py:383-402 | every arm's items replaced in place, with every run they need registered |
| `Hoisting.Hoister.VariantRules` | src/lexic/compile/reduction.py:458-473 | the variant: kept and dropped rules whole, the others with runs replaced, and exactly the run rules these come to need |
| `Hoisting.NoRunLeft` | src/lexic/compile/reduction.py:356-473 | the variant has no licensed, undropped, allowed run left in a rule not kept; every other item, and every kept rule, is as it was |
| `Hoisting.RunsAreNeeded` | src/lexic/compile/reduction.py:404-473 | every run rule repeats an element some rule not kept repeats, with that element's licence |
| `Hoisting.RunNameIsInjective` | src/lexic/compile/reduction.py:369 | two elements never share a run rule |
| `Hoisting.HoistKeepsLanguages` | src/lexic/compile/reduction.py:356-410 | hoisting keeps every rule's language, if no run rule it needs is already a rule's or a reference's name |
| `FoldedVariants.UnseenExactly` | src/lexic/compile/reduction.py:422-455 | for every derivation with markable marks, among the rules kept whole, and fresh run names: no value and no yielded text of any tree changes under the fold of its image exactly when no mark but a dropped one and no live hoisted run loses text and no rule's own body sees its runs spliced |
| `FoldedVariants.JoinsDoNotSee` | src/lexic/compile/reduce/fold.py:474-484 | no body sees its runs spliced, if rules with runs read the join of their channel only, poison-free elements show as their text and a poisoned run parses again to the same joined values |
| `FoldedVariants.JoinsReadJoin` | src/lexic/compile/reduce/fold.py:262-268 | a yielding, constant or joining body cannot tell channels apart that join to the same text |
| `FoldedVariants.FoldIsValue` | src/lexic/compile/reduction.py:1-25 | end to end: under those conditions, and if no mark and no live hoisted run loses text, the fold of any tree the variant derives is the value of a tree of the grammar for the same text |
| `FoldedVariants.ImageOf` | src/lexic/compile/reduction.py:422-455 | every tree of a rule has an image the variant derives |
| `FoldedVariants.TreeOf` | src/lexic/compile/reduction.py:422-455 | every tree the variant derives for a rule of the grammar is such an image |
| `FoldedVariants.CountingBodySees` | src/lexic/compile/reduce/fold.py:474-484 | with doc ::= word* counting its arguments, the run of two words folds as one argument though word is text-equivalent |
| `GroupNaming.Namer.Name` | src/lexic/compile/reduction.py:518-532 | an item's naming in place, counter and made rules included, is the function NameItem |
| `GroupNaming.Namer.NameAll` | src/lexic/compile/reduction.py:508-515 | so is that of all arms, left to right on one counter |
| `GroupNaming.NameGroups` | src/lexic/compile/reduction.py:500-515 | and of all rules, counting afresh for each |
| `GroupNaming.GroupNumberIsUnique` | src/lexic/compile/reduction.py:524-525 | equal group names carry equal numbers |
| `GroupNaming.DecimalReads` | src/lexic/compile/reduction.py:525 | the number of a group reads back as its decimal numeral |
| `GroupNaming.ItemWellNamed` | src/lexic/compile/reduction.py:518-532 | the names made for one item are distinct, numbered within the counter's range, and each continues the base or another made name |
| `GroupNaming.NamedInPlace` | src/lexic/compile/reduction.py:518-532 | a group becomes a reference to its own rule under the base and the next number, and every group in it is named under that name; anything else is left alone |
| `GroupNaming.MadeAreDistinct` | src/lexic/compile/reduction.py:500-515 | made names are distinct across rules, if none of them is the name of a rule |
| `GroupNaming.NamedRulesDistinct` | src/lexic/compile/reduction.py:500-515 | the named grammar defines no rule twice exactly when no made name is the name of a rule |
| `GroupNaming.GroupCanClash` | src/lexic/compile/reduction.py:524-525 | a ::= ("x") beside a rule called a-g1 makes a second a-g1 |
| `GroupNaming.ChainFreeIsFree` | src/lexic/compile/reduction.py:524-525 | no made name is taken, if no rule or reference is called a rule's name with group numbers appended |
| `GroupNaming.NamedRulesGroupFree` | src/lexic/compile/reduction.py:518-532 | no rule of the named grammar, original or made, contains a group |
| `GroupNaming.NamingKeepsLanguages` | src/lexic/compile/reduction.py:500-532 | naming its groups keeps the language of every original rule, if no made name is already a rule's or a reference's |
| `Listings.SubGrammarsClosedInEveryOrder` | src/lexic/compile/reduction.py:476-497 | every element's sub-grammar has every rule it names, in every order of rules and references, exactly when no stack of rules under way cuts a rule off from another rule it reaches |
| `Listings.SubGrammarIsClosed` | src/lexic/compile/reduction.py:476-497 | the sub-grammar of an element that reaches no cycle has every rule it names |
| `Listings.SubGrammarCanMissRules` | src/lexic/compile/reduction.py:476-497 | in the ring, the sub-grammar of C has A and not the B that A names |
| `PrivateCopies.PrivateCopy.Of` | src/lexic/parsing/executable.py:260-265 | an object's copy, made once: ends on cyclic graphs, keeps memo and heap consistent, and refuses only for an object no copier is named for |
| `PrivateCopies.PrivateCopy.Keep` | src/lexic/parsing/executable.py:267-270 | records one copy and changes nothing else |
| `PrivateCopies.PrivateCopy.CopyTuple` | src/lexic/parsing/executable.py:346-362 | a tuple made after its members, or found made meanwhile |
| `PrivateCopies.PrivateCopy.CopyContainer` | src/lexic/parsing/executable.py:378-432 | a list, set or instance recorded empty and then filled part by part |
| `PrivateCopies.PrivateCopy.CopyDict` | src/lexic/parsing/executable.py:370-375 | a dictionary recorded empty and then filled entry by entry |
| `PrivateCopies.PrivateCopy.FillEntry` | src/lexic/parsing/executable.py:373-374 | one entry copied, its value before its key |
| `PrivateCopies.StaysConsistent` | src/lexic/parsing/executable.py:241-270 | recording one fresh copy keeps the memo one-to-one onto fresh objects and every settled copy settled |
| `PrivateCopies.CopyIsPrivate` | src/lexic/parsing/executable.py:241-252 | a consistent memo reached from the root is an isomorphic private copy |
| `PrivateCopies.CopyOf` | src/lexic/parsing/executable.py:208-223 | always ends; refuses exactly when an object without a copier is reached; otherwise the result is isomorphic to the original, one fresh copy for each reached object, kept ones and atoms used as given, the original untouched |
| `PrivateCopies.PathsAgree` | src/lexic/parsing/executable.py:241-252 | the same path of part positions leads from copy and original to corresponding objects |
| `PrivateCopies.SharingAgrees` | src/lexic/parsing/executable.py:260-261 | two paths meet in the copy exactly when they meet in the original |
| `Emission.ToText` | src/lexic/model.py:441-463 | the stack loop emits exactly the recursive emission, and fails exactly when an abstract alternation is reached |
| `Emission.OpenEmission` | src/lexic/model_emission.py:27-41 | over any work left: stacks what, worked off, comes to emitting the container whole, its extents and text then followed by what was to follow; every slot stacked is reserved and less work is left |
| `Emission.EmitAddressed` | src/lexic/model.py:502-541 | the same text and refusal as ToText, with exactly the extents of the recursive definition |
| `Emission.RecordSpells` | src/lexic/model.py:465-500 | a record spells nothing when its rule has an empty arm and no field is set, and otherwise its fields' texts and its literals in slot order |
| `Emission.OthersSpell` | src/lexic/model.py:441-463 | a run spells its elements one after the other, a leaf and a value class their own text; an abstract alternation has none |
| `RoundTrip.RoundTripsExactly` | README.md:48 | the model built from a tree emits the text that was parsed exactly when no record of the tree reads as its rule's empty arm although text was matched |
| `RoundTrip.AlwaysRoundTrips` | README.md:48 | every parse of a grammar gives its text back exactly when no tree of it is swallowed so |
| `RoundTrip.SwallowsExactly` | src/lexic/model.py:487-490 | read off the grammar: a rule swallows exactly when, beside an empty arm, it has an arm with a literal and no field that must be set |
| `RoundTrip.EmptyBracketsVanish` | src/lexic/model.py:487-490 | with opt ::= "(" x? ")" or nothing, the model of "()" emits nothing |
| `RoundTrip.BoundAs` | src/lexic/compile/pipeline/rulemap.py:110-125 | a rule with references is a choice exactly when two arms have items; an item has no field exactly when it is one plain literal, and is bound as a model, or a run of models when it repeats, exactly when it is a reference or a group of nothing but references |
| `Emission.Occurrence` | src/lexic/model.py:543-574 | resolves an address step by step, refusing at the first step that descends into a leaf or names no slot |
| `Emission.ExtentOfPath` | src/lexic/model.py:510-519 | every assigned address has its extent |
| `Emission.PathOfExtent` | src/lexic/model.py:510-519 | and every extent is at an assigned address |
| `Emission.SpanSpells` | src/lexic/model.py:543-552 | the part at an address spells the text under its span |
| `Emission.PartsTile` | src/lexic/model.py:517-519 | consecutive parts of a container tile its span |
| `Emission.ExtentsInOrder` | src/lexic/model.py:519 | extents come in pre-order with distinct addresses |
| `Emission.PrecedesIsStrict` | src/lexic/model.py:519 | pre-order is a strict order on addresses |
| `Emission.EveryExtentSpells` | src/lexic/model.py:502-574 | for every extent of an emission, occurrence at its address resolves to a part whose own text is the text under its span |
| `Emission.EveryContainerTiles` | src/lexic/model.py:517-519 | every container's parts have extents of their own, inside it and end to end |
| `Caches.OwnershipTables.Adopt` | src/lexic/parsing/caches.py:87-97 | adds the derived identities under the owner, nothing else changing: the event Adopting |
| `Caches.AdoptsMore` | src/lexic/parsing/caches.py:87-97 | after it the owner's adopted identities are those it had and the new ones |
| `Caches.OwnershipTables.Track` | src/lexic/parsing/caches.py:100-123 | claims exactly the unclaimed identities for a new finalizer, or nothing |
| `Caches.TrackingClaims` | src/lexic/parsing/caches.py:100-123 | a tracking claims exactly the identities nobody claimed, for its finalizer alone; with none left nothing happens |
| `Caches.OwnershipTables.Expand` | src/lexic/parsing/caches.py:134-143 | the worklist ends with the roots and all adopted under them, cycles included, and pops exactly their records |
| `Caches.OwnershipTables.Sweep` | src/lexic/parsing/caches.py:126-131 | keeps exactly the entries whose key is no dropped identity, or holds none at any registered position |
| `Caches.OwnershipTables.Register` | src/lexic/parsing/caches.py:70-84 | a new, empty memo with the key positions that hold owners |
| `Caches.OwnershipTables.Memoise` | src/lexic/parsing/products.py:266-281 | one entry more in its memo, nothing else changing: the event Memoising |
| `Caches.OwnershipTables.Release` | src/lexic/parsing/caches.py:146-168 | the new tables are Released of the old |
| `Caches.OwnershipTables.Die` | src/lexic/parsing/caches.py:122-123 | a finalizer releases what its owner claimed, once |
| `Caches.ReachedIsDropped` | src/lexic/parsing/caches.py:134-143 | what is dropped is exactly what the roots reach |
| `Caches.DroppedIsLeast` | src/lexic/parsing/caches.py:134-143 | and it is the least such set closed under adoption |
| `Caches.ReleaseDropsExactly` | src/lexic/parsing/caches.py:126-168 | after a release exactly the reached identities are gone from claims, adoption keys and members; a memo entry is gone exactly when its key is a reached identity or holds one at a registered position; nothing else is lost or changed |
| `Caches.ReleaseInTurn` | src/lexic/parsing/caches.py:146-168 | two releases, in either order, are one release of both |
| `Caches.ClaimsKept` | src/lexic/parsing/caches.py:100-123 | pending finalizers go on holding disjoint claimed identities exactly when a dying one reaches no other's claims |
| `Caches.NotAdoptedIsEnough` | src/lexic/parsing/caches.py:100-111 | it reaches none when no claimed identity is adopted |
| `Caches.ClaimsHeldExactly` | src/lexic/parsing/caches.py:87-168 | along every run, pending finalizers hold disjoint identities, all claimed, in every state exactly when every death releases its own alone |
| `Caches.ClaimsHeldOnRuns` | src/lexic/parsing/caches.py:87-168 | so they do along every run on which no claimed identity is adopted |
| `Caches.ShapedOnRuns` | src/lexic/parsing/caches.py:87-168 | along every run every memo key keeps the shape of its registered positions |
| `Caches.AdoptedClaimIsLost` | src/lexic/parsing/caches.py:100-123 | a run of two trackings and an adoption reaches a state from which an identity claimed by one owner and adopted under another is lost with the other |
| `CompileOnce.StepInv` | src/lexic/parsing/products.py:248-293 | every step of every thread keeps the locks, the guard, the memo and the counts consistent |
| `CompileOnce.HitNeedsNoLock` | src/lexic/parsing/products.py:237-250 | a caller the memo answers is served by the first, unlocked read and nothing else happens |
| `CompileOnce.CompileIsLocked` | src/lexic/parsing/products.py:250-263 | a compile starts only inside the key's lock on a memo that does not answer; one that raises leaves the memo and gives the lock back |
| `CompileOnce.CompiledAtMostOnce` | src/lexic/parsing/products.py:255-263 | in every interleaving one product at most is minted for a request, and compiles started exceed those that raised by one at most |
| `CompileOnce.CallersAgree` | src/lexic/parsing/products.py:248-263 | all callers of one request get one product, of the very grammar and binding they asked for |
| `CompileOnce.SomeoneCanStep` | src/lexic/parsing/caches.py:184-209 | while a caller is unserved some thread can step: no deadlock |
| `CompileOnce.RunsEndServed` | src/lexic/parsing/products.py:237-263 | a run is at most nine steps a thread, and one that cannot go on has served every caller or raised to it |
| `CompileOnce.AloneTakesNine` | src/lexic/parsing/products.py:237-263 | a caller alone, on a memo without an answer or a lock for it, is served by its own compile after exactly nine steps |
| `CompileOnce.SerialsGrow` | src/lexic/parsing/products.py:255-263 | along a run no two products minted share a serial |
| `Spill.Share` | src/lexic/generate/sizing.py:419-431 | ends; shares and leftover make the spare; every share is the least of its room and one level times its weight; at most 1 is left over or every growing item is full |
| `Spill.Round` | src/lexic/generate/sizing.py:422-430 | one round raises the level for all, loses nothing, and fills an item or leaves nothing over |
| `Spill.WaterFillingIsUnique` | src/lexic/generate/sizing.py:419-431 | two water-fillings of one amount are the same, however many rounds made them |
| `Filler.Rule` | src/lexic/generate/sizing.py:343-349 | what a steered rule returns is in its language; an undefined rule, a small budget or a spent depth is walked freely, and otherwise the budget is spent on the body |
| `Filler.Expand` | src/lexic/generate/sizing.py:351-363 | the budget is spent on an arm with room for it, nesting when such an arm does, or on one none is wider than that can still grow; freely exactly when no arm has room or can grow; the text is spelled by the arm with the budget shared out |
| `Filler.Chosen` | src/lexic/generate/sizing.py:356-360 | an arm with room, nesting when one of them nests |
| `Filler.Roomiest` | src/lexic/generate/sizing.py:361-363 | the arm with the most room |
| `Filler.Arm` | src/lexic/generate/sizing.py:365-381 | the pieces of an arm's items spell the arm, each growing item's run spending its share of the budget |
| `Filler.Shares` | src/lexic/generate/sizing.py:365-381 | the items that grow are those with room, the nesting ones when any is; their shares are a water-filling, by rolled weights, of what the means of the rest leave of the budget |
| `Filler.Piece` | src/lexic/generate/sizing.py:405-416 | a next share: even where the count is fixed, at most half the budget where the atom nests, natural otherwise, and at least an even spread over bounded slots |
| `Filler.Repeat` | src/lexic/generate/sizing.py:383-403 | a repetition stops at its upper bound, or past its lower once less than half a unit is left of its share, and not before |
| `Filler.Steer` | src/lexic/generate/sizing.py:434-457 | a steered document is in the language of the rule asked for, and spends the size asked for on it |
| `Census.FieldChildren` | src/lexic/ir/identity.py:45-80 | one segment per part, in order: a node part gives itself, a run of nodes alone its members in their places, anything else nothing |
| `Census.Take` | src/lexic/ir/identity.py:143-169 | the stack loop lists nodes in the order of recursive depth-first pre-order, and counts for each its arrivals |
| `Census.CensusIsReachable` | src/lexic/ir/identity.py:119-126 | the census lists exactly what the root reaches, the root first and each node once |
| `Census.CensusIsPreorder` | src/lexic/ir/identity.py:119-126 | the order is pre-order: the root first, then each time the first child not listed of the latest node that has one, until none has |
| `Census.ArrivalsAddUp` | src/lexic/ir/identity.py:119-126 | all arrivals are one per edge between reached nodes and one for the root |
| `CharSets.Normalized` | tools/benchmark/emitters/charsets.py:32-40 | a normal set, sorted with nothing touching, of the same points |
| `CharSets.NormalIsCanonical` | tools/benchmark/emitters/charsets.py:28-29 | two normal sets of the same points are the same intervals |
| `CharSets.Complement` | tools/benchmark/emitters/charsets.py:48-58 | a normal set of exactly the other code points |
| `CharSets.EveryPoint` | tools/benchmark/emitters/charsets.py:43-58 | the complement of nothing runs from 0 to 1114111 |
| `CharSets.ComplementTwice` | tools/benchmark/emitters/charsets.py:48-58 | complementing twice gives back the same intervals |
| `CharSets.Holds` | tools/benchmark/emitters/charsets.py:61-64 | bisection answers membership |
| `CharSets.OverlapShares` | tools/benchmark/emitters/charsets.py:67-73 | two sets overlap exactly when they share a point |
| `CharSets.Partition` | tools/benchmark/emitters/charsets.py:76-105 | every block holds exactly the points of its first point's signature, signatures are distinct and cover every held point, and each set lists the blocks whose signature has it |
| `CharSets.SetIsUnionOfItsBlocks` | tools/benchmark/emitters/charsets.py:76-88 | each set is the union of its listed blocks |
| `CharSets.BlockIsSignature` | tools/benchmark/emitters/charsets.py:79-82 | two points share a block exactly when the same sets, and some set, hold them |
| `CharSets.BlocksAreDisjoint` | tools/benchmark/emitters/charsets.py:77 | no point lies in two blocks |
| `CharSets.LiteralHasOneBlock` | tools/benchmark/emitters/structured.py:275-285 | a literal's character lies in exactly one block, alone |
| `LexerRuns.Alphabet.Visit` | tools/benchmark/emitters/structured.py:220-237 | adds exactly the points a node needs outside the runs, every class and literal character among them; refused where a negation is not of a class |
| `LexerRuns.NeedsExactly` | tools/benchmark/emitters/structured.py:220-237 | a point is needed exactly when a class, a negated class or a literal met without entering a run has it |
| `LexerRuns.ExpressibleExactly` | tools/benchmark/emitters/structured.py:220-237 | nothing is refused exactly when every negation met so is of a class |
| `LexerRuns.WantsExactly` | tools/benchmark/emitters/structured.py:220-237 | a set is wanted exactly when a class met so is it, or a negated class is its complement |
| `LexerRuns.SpelledExactly` | tools/benchmark/emitters/structured.py:220-237 | a character is spelled exactly when a literal met so has it |
| `LexerRuns.SafeRuns` | tools/benchmark/emitters/structured.py:243-272 | the kept runs are the survivors of dropping every clashing run round after round; they are disjoint from each other and from what the rules need outside them |
| `LexerRuns.ClearOf` | tools/benchmark/emitters/structured.py:258-268 | a round keeps exactly the runs that clash with nothing |
| `LexerRuns.HarmlessSurvives` | tools/benchmark/emitters/structured.py:243-272 | a run that shares no point with another run, nor with the rules with every run spelled out, is kept |
| `LexerRuns.Unsafe` | tools/benchmark/emitters/structured.py:258-268 | a run is dropped exactly when it shares a point with the alphabet or another run |
| `LexerRuns.PartitionBlocks` | tools/benchmark/emitters/structured.py:275-285 | disjoint blocks of exactly the points needed, every class the union of its blocks and every literal character a block of its own |
| `LexerRuns.OneTokenAPoint` | tools/benchmark/emitters/structured.py:243-285 | with the safe runs and the blocks as tokens no code point has two |
| `Pretokens.ManyEnds` | src/lexic/api/pretokens.py:75-80 | a greedy star tries the end of its run first, then every position before it |
| `Pretokens.FirstStart` | src/lexic/api/pretokens.py:120-123 | backtracking: the first start the rest can go on from decides |
| `Pretokens.ContractionAt` | src/lexic/api/pretokens.py:138-156 | the source slice the case-folded contraction alternatives find first, or nothing |
| `Pretokens.ContractionsExactly` | src/lexic/api/pretokens.py:41-97 | a contraction is found exactly where an apostrophe is followed by s, t, m or d, or by re, ve or ll, and ends there |
| `Pretokens.CharKinds` | src/lexic/api/pretokens.py:45-72 | a character is exactly one of a letter, a number, a space and a symbol; a prefix is a symbol or a space but no line break |
| `Pretokens.FoldedAt` | src/lexic/api/pretokens.py:152-155 | slices up to one past the word's length are enough: folding never shortens |
| `Pretokens.LastNewlineRun` | src/lexic/api/pretokens.py:204-214 | the end of the last newline run of the slice |
| `Pretokens.QwenSpace` | src/lexic/api/pretokens.py:188-201 | what the three whitespace alternatives find first |
| `Pretokens.QwenPiece` | src/lexic/api/pretokens.py:159-185 | exactly what ordered-choice greedy backtracking of the Qwen pattern finds at the position, and never nothing |
| `Pretokens.QwenAlternatives` | src/lexic/api/pretokens.py:120-123 | the pattern finds what its first alternative that matches finds |
| `Pretokens.QwenSplit` | src/lexic/api/pretokens.py:217-225 | ends with exactly the pattern's matches, none empty, which join to the text |
| `Pretokens.Gpt2Piece` | src/lexic/api/pretokens.py:83-106 | exactly what the GPT-2 pattern finds at the position, and never nothing |
| `Pretokens.Gpt2Split` | src/lexic/api/pretokens.py:109-117 | ends with exactly that pattern's matches, none empty, which join to the text |

## Left out

- Grammars: negated classes and token atoms, rule order beyond what a walk takes, and the semantic flag are not modelled; character classes are sets of characters.
- Generator.Generate: while depth lasts an optional reference may still be taken to an unproductive rule, so only a start among productive rules is shown never to refuse, as the code behaves.
- Filler.Repeat: repetition of pieces that may be empty ends only with probability one, so the loop carries a fuel bound and refuses when it is spent; the heavy tail of a recursive share is any amount between one unit and all that is left.
- Spill.Share: over the reals; floating-point rounding is not modelled.
- Reduction.Verdicts.TextEquiv: bodies that raise and integer constants are not told apart from other actions; an action is any function of the channel and the kept text.
- PoisonRuns.ProvenArmIsText: the evaluation of a body over sampled characters is a premise; what it shows of the whole rule is assumed of it.
- FoldedVariants.FoldIsValue: a derivation's parse, its sub-parse of a poisoned run and the elision of dropped subtrees are not modelled; the fold is of a tree the variant derives, and that a sub-parse finds elements of the same joined values is a premise.  Models, bindings and pass-through chains are left out: the fold walks trees.
- PoisonRuns.ProvenLeavesSlips: where a proven arm's rule loses text, its body is applied to less than its text, and nothing is said of it.
- ReducedText.RightInEveryOrderExactly: exact where every rule above a dropped one yields and loses text; a rule that does not yield has no verdict resting on its entry, yet its partial entry may be copied into others, so elsewhere `UnbrokenVerdictsAreRight` and `RightVerdictsAreUnbroken` are the two halves.
- Hoisting.HoistKeepsLanguages: which marks `inline_refs` accepts is not part of this model; any set of allowed run names is.
- GroupNaming.NamingKeepsLanguages: grammars where a made name is already a rule's, or a reference's, are excluded, as there the code defines a rule twice or gives an undefined reference a meaning.
- PrivateCopies.CopyOf: closures and their cells, bound methods, frozensets, rebuilt IR values and self-copying C objects are not modelled; an instance is its slots and attributes in order, without the intermediate `__dict__` object; a set keeps its members as a list and equal dictionary keys are not merged.  Cycles through tuples alone, which ordinary Python code cannot build, are excluded.
- PrivateCopies.PrivateCopy.CopyContainer: how a set hashes its members, and the `__dict__` object an instance keeps its attributes in, are not modelled.
- PrivateCopies.PrivateCopy.CopyDict: hashing and equality of keys are not modelled, so equal keys are not merged.
- Filler.Steer: the sizes steering reads off a grammar are parameters; what size the document comes to is not stated.
- Caches.OwnershipTables.Release: a release runs without other threads writing the same memos.
- CompileOnce.CompiledAtMostOnce: no release happens during the run; the replica and the per-decider program routes, which use the same lock, are not modelled.
- Emission.EmitAddressed: values other than text, models and tuples are emitted by an uninterpreted spelling.
- RoundTrip.RoundTripsExactly: field names, token atoms and the passes that prepare a grammar for binding are not modelled; a choice's arms are references, as those passes leave them, and a group of anything but references is bound as its text.
- Census.Take: which nodes are unspellable is not modelled.
- LexerRuns.SafeRuns: a node is what the alphabet reads of it; how a run's characters are found is not part of this model.
- Pretokens.QwenPiece: Unicode's tables are abstract; letters, numbers and spaces are disjoint, folding never shortens and only an apostrophe folds to one.  The digit, separator and byte-level steps are left out as easy.
- The Earley kernel, the PDA compiler and runtime, the canonicalizer, escape codecs and the layout renderer are not part of this model.
- Benchmark scheduling, reporting, file access and the drivers of other parsers are left out: input, output and presentation.
