# Hexa Policy Mapper: a verified model

Hexa maps access policies between its own language, IDQL, and the languages and stores of other
platforms. This project models the parts of it whose correctness spans several functions or a whole
run, and proves what they keep and, where a promise does not hold on every input, exactly when it does.

- **The IDQL condition pipeline.** `ParseFilter` as the one-pass state machine it is, the three
  printers (`String`, `SerializeExpression`, the CEL and Cedar emitters), the split of conjunctions
  into Cedar `when`/`unless` clauses, and the readers from CEL and Cedar back to IDQL. Every stage is
  meant to keep the truth value of a rule; the stages use different precedence rules.
- **`ProcessAsync`** as an interleaving of the steps of its goroutines.
- **`GetEntityDescendents`**, a worklist closure over a graph that may have cycles.
- **Policy comparison, reconciliation** and the replay of a difference list against the Amazon
  Verified Permissions store, with client calls that may fail.
- **Entity paths**: the character loop that reads them and the printer that undoes it.
- **Resource-action roles**: keys that are read back, and the update planner.

Condition text is a sequence of tokens. `Surface` gives it one reference reading, shared by IDQL, CEL
and Cedar: `and` binds tighter than `or` (RFC 7644 section 3.4.2.2; the CEL language definition,
section "Syntax"; the Cedar grammar). "Means" always refers to that reading, under every valuation of
the comparisons, each comparison being one unit. Where the repository's own `ParseFilter` reads a text
instead, or where CEL gives a `!` to a relation's left operand (`CelNegation`), the statement says so.

## Layout

| module | models |
|---|---|
| `Idql`, `Surface`, `Once` | condition trees; text, its reference reading and its parse trees; texts without a repeated comparison |
| `Parser`, `ParserFold`, `ParserCase`, `ParserRetract`, `ParserMeaning`, `ParserIs` | pkg/hexapolicy/conditions/parser |
| `Serialize`, `ConditionEquals`, `EqualsRuns`, `EqualsExact` | pkg/hexapolicy/conditions/conditions.go |
| `Cel`, `CelExact`, `CelNegation`, `CelRead` | models/conditionLangs/gcpcel |
| `CedarEmit`, `CedarMeaning`, `CedarWord`, `CedarNode`, `CedarRead`, `CedarRule` | models/conditionLangs/cedarConditions |
| `ProcessAsync` | pkg/workflowsupport |
| `EntityStore` | models/formats/cedar/entity.go |
| `Policy`, `Reconcile` | pkg/hexapolicy/hexa_policy.go |
| `Avp` | providers/aws/avpProvider |
| `EntityPath` | pkg/hexapolicy/types/entity.go |
| `RarKey`, `Roles`, `RarPlan` | models/rar |
| `Strings`, `Sorting`, `Collections` | what the Go library does with strings and sorting; what the proofs share |

Functions are the specification; where the source changes variables in a loop or fields of an object,
a method with that loop or a class with those fields is proved to compute the function.

## Where code and documentation disagree

The model follows the code.

- `ParseFilter` is described as an RFC 7644 parser, but it folds left to right and applies the first
  `not` of a level to every later bracket group. `ParserMeaning.AgreementExact` says when this is harmless.
- The comment on `ConditionInfo.Equals` calls a true result always correct. For a rule with distinct
  comparisons it is exactly when the rule is a run of one operator over possibly negated comparisons, or
  a single comparison, and no other casing of its words sorts like its own (`EqualsExact.EqualsExact`). It
  fails with both operators (`EqualsRuns.MixedRulesDiffer`), under one operator with a negated group
  (`EqualsRuns.NegatedGroupDiffers`), and for a single comparison with a letter in it
  (`EqualsExact.OneComparisonExact`): `sw`, `ew` and `co` look at letter case and `Equals` does not. Only
  the last family goes away where letter case does not matter (`EqualsRuns.CaseBlindExact`).
- `Compare` tests the same condition twice, so a condition that only the second policy has is never
  reported, while `Equals` sees it: `Policy.DroppedConditionUnseen`.
- `MapCedarConditionToHexa` is to return an error for what IDQL cannot express. It reports a refused
  clause only when it is the last one or an `unless` among several, and it reports nothing when the subject
  of a `like`, the place after `is ... in` or an operand of a decimal comparison cannot be expressed
  (`CedarRule.ReportedExactly`, `CedarNode.SwallowedExactly`). The clause then vanishes
  (`CedarRule.LostClauseAccepted`) or compares the empty string (`CedarRule.SubjectSwallowed`). On the pattern
  `*` it panics (`CedarNode.PatternExact`). Names with a dot, a blank or a bracket in them are written as
  they are, and then one word can stand for two operands (`CedarWord.DottedNamesMuddle`).
- The CEL emitter puts `!` directly before a comparison, where CEL lets it belong to the left operand: the
  text of a negated relation means something else in CEL (`CelNegation.OwnMeaningExact`).
- `MapConditionToCedar` has an error to return for what it does not support, but panics on a presence test
  whose path has no dot and on operators that alternate too deeply (`CedarMeaning.ReturnsExactly`).
- The CEL mapper is meant to read back what it wrote. It does exactly for the comparisons described in
  `CelRead.AtomSurvives`; a path of three names panics, is lost or is cut (`CelRead.ThreeNamesExample`).
- `SerializeExpression` is said to preserve precedence. It does for a reader with precedence
  (`Serialize.SerializeMeaning`), but not always for the repository's own parser
  (`Serialize.SerializeParseExact`).

## Model

| member | source | states |
|---|---|---|
| `Surface.ReadTextInverse` | models/conditionLangs/gcpcel/gcp_condition_mapper.go:172-184 | the reference reader, which stands in for the target languages' parsers, recovers any level from its text |
| `Surface.TreeOfEval` | models/conditionLangs/gcpcel/gcp_condition_mapper.go:172-184 | however a parser groups the runs of one operator, its tree has the meaning of the text |
| `Surface.RightTreeIsTree` | models/conditionLangs/gcpcel/gcp_condition_mapper.go:172-184 | every well-formed text has such a tree |
| `Parser.ScanGroup` | pkg/hexapolicy/conditions/parser/parser.go:47-58 | the inner loop stops at the bracket that closes the group, or at the end when none does |
| `Parser.ParseGroup` | pkg/hexapolicy/conditions/parser/parser.go:43-107 | a bracket group is parsed as a filter of its own; an unclosed one is an error |
| `Parser.ParseToken` | pkg/hexapolicy/conditions/parser/parser.go:39-360 | one turn of the loop is one step of the run |
| `Parser.ParseFilter` | pkg/hexapolicy/conditions/parser/parser.go:17-432 | the loop computes the run of the state machine over the whole text, errors included |
| `ParserFold.ParseIsLeftFold` | pkg/hexapolicy/conditions/parser/parser.go:43-108 | on any well-spelled text the result is the left fold of the clauses, a bracket group being negated exactly when some `not` came earlier at its level |
| `ParserCase.ParseWritten` | pkg/hexapolicy/conditions/parser/parser.go:215-241 | the same for logical words and operators written in any letter case, word by word: `AND` is an `and` |
| `ParserCase.BlanksMerge` | pkg/hexapolicy/conditions/parser/parser.go:211-215 | for any text whatever, a blank may as well be written twice |
| `ParserCase.LastWordUnread` | pkg/hexapolicy/conditions/parser/parser.go:375-405 | where the text ends behind an attribute and one more word, that word is not looked at: whatever it is, a presence test is returned |
| `ParserCase.LastNotIsWord` | pkg/hexapolicy/conditions/parser/parser.go:297-309 | for any text whatever, a `not` at its very end is a word like any other |
| `ParserCase.BracketsRefused` | pkg/hexapolicy/conditions/parser/parser.go:282-289 | behind any well-spelled text a closing bracket is refused as unopened, and in front of it an opening one as unclosed |
| `ParserRetract.RunShape` | pkg/hexapolicy/conditions/parser/parser.go:76-101 | every accepted text gives a tree whose right operands are single clauses and in which no plain group follows a negated one |
| `ParserRetract.ParsePrintParse` | pkg/hexapolicy/conditions/parser/types.go:59-94 | for every accepted token sequence, printing the tree with String and parsing again gives the same tree |
| `ParserRetract.ParsedShapeExact` | pkg/hexapolicy/conditions/parser/parser.go:343-359 | the trees of that shape are exactly those the parser can return |
| `ParserMeaning.LevelSound` | pkg/hexapolicy/conditions/parser/parser.go:297-303 | the status computed from a text says, for every valuation, whether the parser's tree has the text's meaning or its negation |
| `ParserMeaning.ParseMeaning` | pkg/hexapolicy/conditions/parser/parser.go:343-359 | on text of status Same the parsed tree means what RFC 7644 says the text means |
| `ParserMeaning.TidySame` | pkg/hexapolicy/conditions/parser/parser.go:82-97 | status Same holds when at every level no `and` follows an `or`, each `not` is directly followed by a bracket group and no plain group follows a `not` |
| `ParserMeaning.AgreementExact` | pkg/hexapolicy/conditions/parser/parser.go:297-359 | for every well-spelled text without a repeated comparison, however nested: what ParseFilter returns has the RFC meaning under every valuation if and only if the status is Same, and the negated meaning under every one if and only if it is Opposite |
| `ParserIs.AcceptsExactly` | pkg/hexapolicy/conditions/parser/parser.go:434-456 | well-spelled text is refused if and only if it holds an `is` comparison, wherever it stands; otherwise the left fold is returned |
| `ParserMeaning.AndAfterOrExample` | pkg/hexapolicy/conditions/parser/parser.go:343-359 | `a or b and c` is read differently by the parser and the RFC |
| `Serialize.SerializeMeaning` | pkg/hexapolicy/conditions/conditions.go:154-178 | the printed text, read with RFC 7644 precedence, means what the tree means, for every tree |
| `Serialize.BracketsExactly` | pkg/hexapolicy/conditions/conditions.go:154-178 | exactly as many brackets are written as there are `not`s, brackets that are no operands, and `or`s that are operands of an `and` |
| `Serialize.RotationKeepsLeftAssoc` | pkg/hexapolicy/conditions/conditions.go:159-178 | regrouping a run of one operator gives a tree with the same normal form |
| `Serialize.SerializeReassociates` | pkg/hexapolicy/conditions/conditions.go:159-178 | trees with the same normal form print the same text |
| `Serialize.SerializeParses` | pkg/hexapolicy/conditions/conditions.go:264-292 | ParseFilter accepts every printed tree, with a known result |
| `Serialize.SerializeParseMeaning` | pkg/hexapolicy/conditions/conditions.go:264-292 | printing and parsing again keeps the meaning when the printed text has status Same, in particular when it is tidy |
| `Serialize.SerializeParseExact` | pkg/hexapolicy/conditions/conditions.go:264-292 | and only then, for every tree without a repeated comparison |
| `Cel.EmitMeaning` | models/conditionLangs/gcpcel/gcp_condition_mapper.go:72-128 | the emitted CEL, its comparisons taken as units and read with CEL precedence, means what the tree means, unless an AND has a bare AND on its left and a bare OR on its right |
| `Cel.BracketsExactly` | models/conditionLangs/gcpcel/gcp_condition_mapper.go:72-128 | how many brackets are written: one for each logical expression that is negated or stands in brackets, and for each `or` that is an operand, but not of a run that goes on to the left |
| `CelExact.EmitMeaningExact` | models/conditionLangs/gcpcel/gcp_condition_mapper.go:103-128 | comparisons taken as units, for trees without a repeated comparison: if and only if that shape occurs nowhere |
| `CelNegation.OwnMeaningExact` | models/conditionLangs/gcpcel/gcp_condition_mapper.go:72-128 | read as CEL reads it, a `!` directly before a relation making it a comparison of its own: for trees without a repeated comparison the text means the tree if and only if that shape occurs nowhere and no relation stands directly under an odd run of `not` |
| `CelNegation.ParsedOwnMeaning` | models/conditionLangs/gcpcel/gcp_condition_mapper.go:83-101 | for rules ParseFilter accepts: if and only if no relation stands so |
| `Cel.ParsedHasNoBareAndOr` | models/conditionLangs/gcpcel/gcp_condition_mapper.go:103-115 | the parser never produces the shape |
| `CelRead.CollapseFilters` | models/conditionLangs/gcpcel/gcp_condition_mapper.go:462-476 | the loop that collapses the mapped clauses nests them to the right, in order |
| `CelRead.MapAst` | models/conditionLangs/gcpcel/gcp_condition_mapper.go:199-263 | the AST of a text, under any grouping, is mapped if and only if each of its comparisons is, and the result means the tree as its comparisons have come back, a negation in front of a left operand included |
| `CelRead.BackExact` | models/conditionLangs/gcpcel/gcp_condition_mapper.go:274-432 | a comparison comes back as it was if and only if its path and value are of the readable kinds: exactly one dot for a presence test, at most one for others, and a value the operator's reader looks at |
| `CelRead.ThreeNamesExample` | models/conditionLangs/gcpcel/gcp_condition_mapper.go:227-283 | a path of three names: compared, it is dereferenced where there is nothing; as the target of a method it is lost; tested for presence, it is cut |
| `CelRead.RoundTrip` | models/conditionLangs/gcpcel/gcp_condition_mapper.go:172-197 | emit, read under any grouping, map back, serialize: when every comparison is of a readable kind and the brackets suffice, the rule that comes back means what the tree meant |
| `CelRead.RoundTripExact` | models/conditionLangs/gcpcel/gcp_condition_mapper.go:172-197 | for trees without a repeated comparison: if and only if, panics, refusals and changed comparisons all counting as failures |
| `CelRead.ParsedRoundTrip` | models/conditionLangs/gcpcel/gcp_condition_mapper.go:26-42 | for every rule ParseFilter accepts there is a reading and the brackets suffice, so that the rule comes back with its meaning when (and, without a repeated comparison, only when) its comparisons are of the readable kinds |
| `CedarEmit.MultiLogicalExpression.constructor` | models/conditionLangs/cedarConditions/map_hexa.go:34-36 | a new run has its operator and no operands |
| `CedarEmit.MultiLogicalExpression.FlattenInto` | models/conditionLangs/cedarConditions/map_hexa.go:41-66 | appends the operands of the whole run, in order, to those already there |
| `CedarEmit.MultiLogicalExpression.AddSide` | models/conditionLangs/cedarConditions/map_hexa.go:43-53 | appends one side: its operands when it continues the run, one nested run when it has the other operator, itself otherwise |
| `CedarEmit.MakeFlattenedLogical` | models/conditionLangs/cedarConditions/map_hexa.go:34-39 | builds the flattened form of a logical expression |
| `CedarEmit.FlattenEval` | models/conditionLangs/cedarConditions/map_hexa.go:34-76 | the flattened form means what the expression means and is never empty |
| `CedarEmit.CedarLevelEval` | models/conditionLangs/cedarConditions/map_hexa.go:197-271 | the text of one expression, read with Cedar precedence, means the expression |
| `CedarEmit.CedarSpells` | models/conditionLangs/cedarConditions/map_hexa.go:197-341 | an expression is written, as the text of its level, if and only if no presence test in it stands on a path without a dot; otherwise the slice of the path fails |
| `CedarEmit.CedarBracketsExactly` | models/conditionLangs/cedarConditions/map_hexa.go:197-271 | how many brackets are written: as for CEL, and one for each negated comparison |
| `CedarEmit.WriteOrItem` | models/conditionLangs/cedarConditions/map_hexa.go:145-162 | the loop over a conjunction inside an `or` clause writes the specified text, or fails as specified |
| `CedarEmit.WriteFlattenedClause` | models/conditionLangs/cedarConditions/map_hexa.go:117-170 | the builder loops write exactly the specified clauses, or fail where a type assertion or the slice of a path fails, whichever comes first |
| `CedarMeaning.ClauseMeaning` | models/conditionLangs/cedarConditions/map_hexa.go:117-195 | what the clauses written for a flattened expression together mean |
| `CedarMeaning.ClausesSound` | models/conditionLangs/cedarConditions/map_hexa.go:78-115 | for every rule for which clauses are returned: together they imply the rule under its action, and equal it unless a bare conjunction was split into `unless` clauses |
| `CedarMeaning.ClausesExact` | models/conditionLangs/cedarConditions/map_hexa.go:118-131 | for trees without a repeated comparison: equal under every valuation if and only if no such split happened |
| `CedarMeaning.FaultExact` | models/conditionLangs/cedarConditions/map_hexa.go:145-157 | the first fault in the order of the text is absent if and only if the operators alternate no deeper than allowed and no presence test is dotless, and it says which of the two stops the mapper |
| `CedarMeaning.ReturnsExactly` | models/conditionLangs/cedarConditions/map_hexa.go:145-157 | for every accepted rule: clauses are returned if and only if the operators of the split part alternate no deeper than the mapper handles and no presence test stands on a path without a dot (lines 328-330); otherwise the mapper panics, on the first of the two in the order of the text |
| `CedarMeaning.RefusedExactly` | models/conditionLangs/cedarConditions/map_hexa.go:78-92 | a rule ParseFilter refuses is handed back with that error, and no other rule is |
| `CedarWord.ComparatorExact` | models/conditionLangs/cedarConditions/map_cedar.go:89-128 | an operand is expressed if and only if nothing the comparator refuses stands anywhere in it |
| `CedarWord.MapSet` | models/conditionLangs/cedarConditions/map_cedar.go:107-116 | the loop over a set literal |
| `CedarWord.OperandRead` | models/conditionLangs/cedarConditions/map_cedar.go:84-128 | what the comparator writes for an operand of ordinary names (`CedarWord.Clean`) is read back as that operand by a reader of its own: every member of a set in order, every step of an access, every type of an entity |
| `CedarWord.WordsInjective` | models/conditionLangs/cedarConditions/map_cedar.go:84-128 | so distinct operands of ordinary names have distinct words |
| `CedarWord.DottedNamesMuddle` | models/conditionLangs/cedarConditions/map_cedar.go:118-127 | and why the names must be ordinary: a name with a dot in it makes one word of two operands |
| `CedarWord.RawRead` | models/conditionLangs/cedarConditions/map_cedar.go:155-180 | the raw text of an entity, as decimal comparisons take it, tells its types and its identifier |
| `CedarNode.MapCedarFunc` | models/conditionLangs/cedarConditions/map_cedar.go:155-180 | the loop over a decimal comparison's arguments computes the two specified sides |
| `CedarNode.SidesExact` | models/conditionLangs/cedarConditions/map_cedar.go:155-180 | of several values the last one counts and of several accesses the last; without one the side is empty |
| `CedarNode.PatternExact` | models/conditionLangs/cedarConditions/map_cedar.go:289-337 | which `like` patterns become contains, ends-with and starts-with, and the one on which the slice fails |
| `CedarNode.CrashExactly` | models/conditionLangs/cedarConditions/map_cedar.go:289-300 | one comparison alone makes the mapper panic: a `like` with the pattern `*` |
| `CedarNode.FactRead` | models/conditionLangs/cedarConditions/map_cedar.go:130-350 | a comparison of the rule speaks of the one fact of the policy it was made of: the operator and the operands can be told from its words |
| `CedarNode.FactsApart` | models/conditionLangs/cedarConditions/map_cedar.go:130-350 | so distinct facts become distinct comparisons |
| `CedarNode.SwallowedExactly` | models/conditionLangs/cedarConditions/map_cedar.go:155-337 | a comparison is mapped without an error and yet not expressed if and only if an operand's error is thrown away in one of three places, or all is expressed and a name is not an ordinary one; in a `like` the empty string takes the path, after `is ... in` the value |
| `CedarNode.FuncSwallows` | models/conditionLangs/cedarConditions/map_cedar.go:155-180 | what becomes of a decimal comparison: an access without its head, the empty string for a side that is neither, and exchanged sides mapped as if they were not |
| `CedarRead.MapNodeMeaning` | models/conditionLangs/cedarConditions/map_cedar.go:184-198 | the tree of a node means what its comparisons have become, and String needs no further brackets |
| `CedarRead.BracketsExactly` | models/conditionLangs/cedarConditions/map_cedar.go:355-400 | how many brackets String writes: one for each `or` that is not outermost and for each `!` |
| `CedarRead.ExpressibleMeaning` | models/conditionLangs/cedarConditions/map_cedar.go:184-400 | a node in which everything is expressible, by ordinary names, is mapped, and its tree means the node: the facts it asks for are about operators and operands, not about words |
| `CedarRead.MapConditionClause` | models/conditionLangs/cedarConditions/map_cedar.go:54-82 | the text of one clause, its error and its panic |
| `CedarRead.MergeClauses` | models/conditionLangs/cedarConditions/map_cedar.go:36-47 | the merging loop, which keeps the last clause's error only |
| `CedarRead.MapCedarConditionToHexa` | models/conditionLangs/cedarConditions/map_cedar.go:17-52 | both cases of the switch, with the one remaining error and the panics |
| `CedarRead.MapTaken` | models/conditionLangs/cedarConditions/map_cedar.go:17-82 | with no node refused, the rule under its action means the conjunction of what the whens and the negated unlesses have become |
| `CedarRead.MapMeaning` | models/conditionLangs/cedarConditions/map_cedar.go:17-82 | with everything expressible, that is what the policy asks for |
| `CedarRead.MapMeaningExact` | models/conditionLangs/cedarConditions/map_cedar.go:17-82 | for a policy that asks for no fact twice: the rule means the policy in every world if and only if no operand, no name and no node is beyond IDQL, discarded operand errors included |
| `CedarRead.ReadableExactly` | models/conditionLangs/cedarConditions/map_cedar.go:38-49 | a reader of RFC 7644 text can read the returned rule if and only if no node of any clause is refused; an operand whose error is discarded leaves it readable |
| `CedarRead.EarlierErrorIsLost` | models/conditionLangs/cedarConditions/map_cedar.go:38-51 | an unsupported clause before a supported one is returned without an error |
| `CedarRule.ReportedExactly` | models/conditionLangs/cedarConditions/map_cedar.go:17-52 | an error or a panic comes back if and only if a `like` panics, or the last clause or an `unless` among several is refused; so "what IDQL cannot express is reported" holds if and only if everything is expressible or one such clause is there, and never when operands are all that is lost |
| `CedarRule.SubjectSwallowed` | models/conditionLangs/cedarConditions/map_cedar.go:283-336 | the smallest example: a single `like` with a refused subject gives no error and a rule that compares the empty string |
| `CedarRule.LostUnseen` | models/conditionLangs/cedarConditions/map_cedar.go:36-49 | ParseFilter reads the merged text as if the lost clauses had never been there |
| `CedarRule.ReadBackExactly` | models/conditionLangs/cedarConditions/map_cedar.go:36-49 | what ParseFilter makes of a merged rule, whatever was lost: the left fold of the clauses that were taken, as they have become, refused if and only if none was or one holds an `is` |
| `CedarRule.SingleReadBack` | models/conditionLangs/cedarConditions/map_cedar.go:29-35 | the same for a single clause |
| `CedarRule.FaithfulExact` | models/conditionLangs/cedarConditions/map_cedar.go:17-82 | without a repeated fact or comparison: read by ParseFilter, the rule means the policy in every world if and only if nothing is beyond IDQL, no comparison is an `is` and its text has status Same |
| `CedarRule.LostClauseAccepted` | models/conditionLangs/cedarConditions/map_cedar.go:38-51 | the smallest example: no error, and ParseFilter accepts the remaining clause alone |
| `ConditionEquals.SlicesAreEqual` | pkg/hexapolicy/conditions/conditions.go:76-86 | true exactly when the lists agree position by position, letter case aside |
| `ConditionEquals.CompareConditions` | pkg/hexapolicy/conditions/conditions.go:30-74 | computes the specified comparison, error and nil cases included |
| `ConditionEquals.ActionsAgree` | pkg/hexapolicy/conditions/conditions.go:36-38 | conditions that compare equal have the same action: an allow never equals a deny |
| `ConditionEquals.VariantsEqual` | pkg/hexapolicy/conditions/conditions.go:180-206 | rules whose trees are joined by any number of operand swaps, regroupings of a run, and brackets added or dropped (not directly under a `not`) compare equal |
| `ConditionEquals.SameKeyAlike` | pkg/hexapolicy/conditions/conditions.go:180-206 | rules that compare equal have, letter case aside, the same plain and the same negated comparisons with repeats counted, and as many other `not`s and operators |
| `ConditionEquals.EqualRunsEquivalent` | pkg/hexapolicy/conditions/conditions.go:28-74 | for requests that are blind to letter case: a rule equal to a conjunction (or disjunction) of possibly negated comparisons is one too, has the same action and means the same, repeated comparisons included |
| `EqualsExact.EqualsExact` | pkg/hexapolicy/conditions/conditions.go:28-74 | for every accepted rule whose comparisons are distinct up to letter case, and every request: whatever compares equal to it has its action and means the same if and only if it is a run of one operator over possibly negated comparisons or holds a single comparison, and no other casing of its words sorts like its own |
| `EqualsExact.OneComparisonExact` | pkg/hexapolicy/conditions/conditions.go:63-85 | for a rule of one comparison: if and only if there is no letter in its path and value |
| `EqualsRuns.CaseBlindExact` | pkg/hexapolicy/conditions/conditions.go:28-74 | the same for requests that are blind to letter case only: if and only if the rule is such a run or a single comparison |
| `EqualsRuns.RearrangedVariant` | pkg/hexapolicy/conditions/conditions.go:180-206 | the comparisons of a rule with the operators and the stray `not`s rearranged freely are an accepted rule with the same labels |
| `EqualsRuns.MixedRulesDiffer` | pkg/hexapolicy/conditions/conditions.go:28-74 | `a and (b or c)` compares equal to `(a and b) or c` |
| `EqualsRuns.NegatedGroupDiffers` | pkg/hexapolicy/conditions/conditions.go:28-74 | `not (a and b)` compares equal to `not ((a)) and b` |
| `Sorting.SortedUnique` | pkg/hexapolicy/conditions/conditions.go:63-64 | a sorted list is determined by its elements |
| `ProcessAsync.InitInvariant` | pkg/workflowsupport/process_async.go:5-10 | the invariant holds at the start |
| `ProcessAsync.PanicsExactly` | pkg/workflowsupport/process_async.go:10-32 | which steps panic: a send on the closed channel, a second close, a counter below zero |
| `ProcessAsync.StepKeeps` | pkg/workflowsupport/process_async.go:10-32 | every step of every goroutine keeps it |
| `ProcessAsync.NoSendAfterClose` | pkg/workflowsupport/process_async.go:21-28 | no send meets a closed channel, and closing waits for every worker |
| `ProcessAsync.Progress` | pkg/workflowsupport/process_async.go:10-34 | some step is enabled until the caller returns |
| `ProcessAsync.StepDescends` | pkg/workflowsupport/process_async.go:10-34 | every step lowers a measure |
| `ProcessAsync.RunKeeps` | pkg/workflowsupport/process_async.go:5-35 | over a whole run, invariant and budget hold |
| `ProcessAsync.EveryRun` | pkg/workflowsupport/process_async.go:5-35 | every interleaving has at most 6n + 6 steps, never panics, can only stop where the caller has returned, and then the results are exactly the multiset of successful outcomes |
| `EntityStore.Contains` | models/formats/cedar/entity.go:192-200 | membership |
| `EntityStore.Visit` | models/formats/cedar/entity.go:175-185 | one turn adds exactly the children of an identifier, each unless known, and the last entity stored under it; when the worklist grows, fewer identifiers remain |
| `EntityStore.StoredExactly` | models/formats/cedar/entity.go:182-184 | what is stored under an identifier is the last entity that carries it |
| `EntityStore.Store.constructor` | models/formats/cedar/entity.go:60-62 | a new store has read nothing |
| `EntityStore.Store.GetEntities` | models/formats/cedar/entity.go:70-72 | reads once and keeps what was read |
| `EntityStore.Store.GetEntityDescendents` | models/formats/cedar/entity.go:165-190 | terminates on any parent graph and returns exactly the stored entities whose identifiers are reachable from the start |
| `EntityStore.ReachableLeast` | models/formats/cedar/entity.go:165-166 | reachability is the least set that holds the start and is closed under children |
| `EntityStore.CompleteClosure` | models/formats/cedar/entity.go:174-187 | a worklist read to its end holds everything reachable |
| `Policy.MembersEqual` | pkg/hexapolicy/hexa_policy.go:346-363 | the nested loops decide whether the lengths agree and every member occurs in the other list, letter case aside |
| `Policy.MembersMatchExact` | pkg/hexapolicy/hexa_policy.go:346-363 | for all lists: the match holds if and only if the lengths agree and the members of the first, letter case aside, are a subset of those of the second |
| `Policy.MatchIsSetEquality` | pkg/hexapolicy/hexa_policy.go:287-304 | when the first list has no repeats it is equality of the two as sets, and symmetric |
| `Policy.SymmetricExact` | pkg/hexapolicy/hexa_policy.go:346-363 | every list that matches `s` is matched by `s` if and only if `s` has no repeats |
| `Policy.RepeatsAsymmetric` | pkg/hexapolicy/hexa_policy.go:346-363 | the smallest example: `a, a` against `a, b` |
| `Policy.ScopesEqual` | pkg/hexapolicy/hexa_policy.go:413-441 | compares types, filters and attributes as specified, the nil dereference included |
| `Policy.ScopeEqualsExact` | pkg/hexapolicy/hexa_policy.go:413-455 | scopes are equal if and only if their attributes match in any order and their filters agree, or the first has none and the second one of no known type; a nil filter is dereferenced if and only if it is the other way round |
| `Policy.TypeExact` | pkg/hexapolicy/hexa_policy.go:443-455 | a scope's type is told by the word its filter begins with, in any letter case, up to a colon or its end |
| `Policy.EqualAgreesExact` | pkg/hexapolicy/hexa_policy.go:208-285 | Equals holds if and only if Compare reports EQUAL and, unless the etags agree, the scopes are equal and no condition is present in the second policy only; and when it panics |
| `Policy.LabelsExact` | pkg/hexapolicy/hexa_policy.go:251-285 | where EQUAL is not reported: SUBJECT if and only if the subjects differ in number or, letter case aside, as sets; ACTION likewise or when the second list is nil; OBJECT if and only if the objects differ in more than letter case; CONDITION if and only if the first has a condition that the second has not or that is unequal |
| `Policy.EtagsExact` | pkg/hexapolicy/hexa_policy.go:174-200 | etags agree if and only if the policies do in all but the identifier and the contents of the scope |
| `Policy.DroppedConditionUnseen` | pkg/hexapolicy/hexa_policy.go:272-278 | a condition only the second policy has is not seen |
| `Reconcile.ReconcilePolicies` | pkg/hexapolicy/hexa_policy.go:510-636 | the loops over the two index maps produce the specified entries and one deletion for each policy left over |
| `Reconcile.DeleteRemaining` | pkg/hexapolicy/hexa_policy.go:607-634 | each policy left in a map is deleted once, in whatever order the maps are read |
| `Reconcile.EntryPerWanted` | pkg/hexapolicy/hexa_policy.go:525-605 | each compare policy yields exactly one MATCHED, UPDATE or NEW entry, in order, the first two justified by Compare |
| `Reconcile.EntryExactly` | pkg/hexapolicy/hexa_policy.go:525-605 | which entry each compare policy gets, told from the existing policies and the earlier entries: MATCHED or UPDATE with the policy that has its id, as Compare decides, else MATCHED with one that has no id and its etag, where no earlier entry handled that one; NEW if and only if there is neither |
| `Reconcile.NothingToDo` | pkg/hexapolicy/hexa_policy.go:510-636 | policies reconciled with themselves leave no difference if and only if no two of them share an id, or an etag when they have none |
| `Reconcile.ConservationExact` | pkg/hexapolicy/hexa_policy.go:516-523 | every existing policy is handled by exactly one MATCHED, UPDATE or DELETE entry if and only if no two existing policies share an id, or an etag when they have none |
| `Reconcile.ShownAll` | pkg/hexapolicy/hexa_policy.go:546-556 | without diffsOnly nothing is left out |
| `Reconcile.Replay` | pkg/hexapolicy/hexa_policy.go:510-636 | applying the entries, full or differences only, leaves one policy for each compare policy, comparing EQUAL to it, and no other |
| `Avp.Client.constructor` | providers/aws/avpProvider/avp_provider.go:290-294 | the store a client works on; no call has been made |
| `Avp.Client.CreatePolicy` | providers/aws/avpProvider/avp_provider.go:309-318 | a created policy gets an unused id; a failed call changes nothing; either way the call is on record |
| `Avp.Client.DeletePolicy` | providers/aws/avpProvider/avp_provider.go:320-328 | removes one static policy and nothing else; templates and empty requests are refused; the call is on record |
| `Avp.Client.UpdatePolicy` | providers/aws/avpProvider/avp_provider.go:357-368 | replaces one static policy in place; the call is on record |
| `Avp.Reconcile` | providers/aws/avpProvider/avp_provider.go:188-288 | the loop over the index map yields the specified entries, all of them or the differences only, and one deletion for each stored policy no request names |
| `Avp.TemplateExactly` | providers/aws/avpProvider/avp_provider.go:444-458 | a request with source data is a template if and only if that says so; one without, if and only if a subject is `?principal` or `?resource` stands anywhere in the object |
| `Avp.ListedDifferences` | providers/aws/avpProvider/avp_provider.go:218-245 | diffsOnly leaves out the matches and nothing else |
| `Avp.DeleteRest` | providers/aws/avpProvider/avp_provider.go:274-286 | one deletion for each remaining policy, in any order |
| `Avp.RestUnnamed` | providers/aws/avpProvider/avp_provider.go:203-256 | what is left for deletion is exactly what no request names |
| `Avp.PlanOpens` | providers/aws/avpProvider/avp_provider.go:203-272 | every stored policy is a named template, has exactly one entry, stands for a wanted policy already, or is left for deletion |
| `Avp.PlanCounts` | providers/aws/avpProvider/avp_provider.go:203-272 | the matched and the planned policies together are exactly the wanted static ones, counted with repeats |
| `Avp.ReplayCreate` | providers/aws/avpProvider/avp_provider.go:303-318 | a creation adds one policy, keeps the books and is one call |
| `Avp.ReplayDelete` | providers/aws/avpProvider/avp_provider.go:320-329 | a deletion removes one policy, keeps the books, is one call, and succeeds without faults when every template is named |
| `Avp.ReplayReplace` | providers/aws/avpProvider/avp_provider.go:339-355 | deletion and then creation, the second only if the first succeeds, keep the books, also when the second call fails; a template is refused |
| `Avp.ReplayInPlace` | providers/aws/avpProvider/avp_provider.go:357-368 | an update in place is one call, changes that policy alone and keeps the books; a template is refused |
| `Avp.ReplayUpdate` | providers/aws/avpProvider/avp_provider.go:331-373 | where the subjects or the object differ the calls are a deletion and a creation; where neither does, one update, after which the store is the old one with the new policy under the same id; on a template the call fails |
| `Avp.ReplayOne` | providers/aws/avpProvider/avp_provider.go:300-377 | one entry of the list keeps the books and makes the calls it stands for, up to the first that fails |
| `Avp.ReplayAll` | providers/aws/avpProvider/avp_provider.go:300-379 | so does the loop, which makes the calls of all entries in order and stops at the first failed one |
| `Avp.CallsExact` | providers/aws/avpProvider/avp_provider.go:290-380 | the calls of a run that succeeds, told from the request: a stored policy is deleted if and only if the first request to name it has other subjects or another object, or none names it and it is no template; it is updated in place, to what was asked, if and only if that request differs in something else alone; a policy is created if and only if a request for it replaces what it names first or names first nothing stored |
| `Avp.LedgerExact` | providers/aws/avpProvider/avp_provider.go:290-380 | at the end of a run that succeeds, and in which no stored template is first named as static: templates untouched and static policies one for one with the requested static ones, each comparing EQUAL, if and only if the first request to name each stored policy says rightly whether it is a template |
| `Avp.SetPolicyInfo` | providers/aws/avpProvider/avp_provider.go:290-380 | whatever is asked and whichever calls fail, everything stored is old or requested, and the calls made are those of the plan up to the first that fails; a successful run leaves the store in sync if and only if the kinds are named rightly, where no stored template is first named as static; without faults it then succeeds if and only if every stored template is named |
| `Avp.EqualStays` | providers/aws/avpProvider/avp_provider.go:225-240 | the other mislabelling: a request equal to the stored policy it names first is matched, no entry names that policy, and so a template in its place stays |
| `Avp.MislabelledStays` | providers/aws/avpProvider/avp_provider.go:210-222 | a request that calls a stored static policy a template leaves it in place |
| `EntityPath.Parse` | pkg/hexapolicy/types/entity.go:35-139 | the character loop computes the specified entity |
| `EntityPath.ParseMembers` | pkg/hexapolicy/types/entity.go:71-77 | the members of a set are parsed one by one |
| `EntityPath.ParsePlain` | pkg/hexapolicy/types/entity.go:88-139 | what a bracket-free text parses to, in terms of its colon-separated pieces |
| `EntityPath.ParseSet` | pkg/hexapolicy/types/entity.go:58-123 | what `types[members]` parses to |
| `EntityPath.ParseSetBehind` | pkg/hexapolicy/types/entity.go:88-139 | and with text behind it: a last piece that is a keyword takes the whole, any other is lost, and the pieces before it are added to the types |
| `EntityPath.ParseUnclosed` | pkg/hexapolicy/types/entity.go:58-87 | a set that is not closed is lost, its types stay |
| `EntityPath.ParseUnopened` | pkg/hexapolicy/types/entity.go:66-87 | a closing bracket that closes nothing is a set of one empty member |
| `EntityPath.PrintShape` | pkg/hexapolicy/types/entity.go:159-194 | whatever is parsed, its print is bracket-free or of the form `types[members]` |
| `EntityPath.SetRoundTrip` | pkg/hexapolicy/types/entity.go:172-189 | a text `types[members]` survives if and only if the types do not end in a colon and every member survives |
| `EntityPath.PrintParseExact` | pkg/hexapolicy/types/entity.go:37-194 | for every text: printing the parsed entity gives the text back if and only if it is of one of these forms |
| `EntityPath.ParsePrint` | pkg/hexapolicy/types/entity.go:159-194 | parsing the print of a well-formed entity returns it |
| `EntityPath.ParsePrintExact` | pkg/hexapolicy/types/entity.go:159-194 | for every entity: if and only if it is well formed |
| `RarKey.GetHttpMethod` | models/rar/resource_action_role.go:134-147 | the loop finds the first method whose prefixed name is the action, letter case aside |
| `RarKey.MethodFound` | models/rar/resource_action_role.go:134-147 | each method is found under its own prefixed name, however that is cased |
| `RarKey.SanitizeMembers` | models/rar/resource_action_role.go:99-108 | the loop drops blank members and trims the rest, in order |
| `RarKey.SanitizeKeeps` | models/rar/resource_action_role.go:99-108 | each member is kept in its place, trimmed, unless it is blank |
| `RarKey.ReadKey` | models/rar/resource_action_role.go:42-84 | reading a key back gives the method and the normalised resource with its dashes turned into slashes |
| `RarKey.KeyReadExactly` | models/rar/resource_action_role.go:42-62 | a text is read as a key if and only if it is `resrol`, a method in any letter case behind `http`, and a rest that is not blank, joined by dashes |
| `RarKey.KeyRoundTripExact` | models/rar/resource_action_role.go:42-132 | for every method and every resource the key read back gives the same pair if and only if the resource is canonical |
| `RarKey.KeysExact` | models/rar/resource_action_role.go:110-132 | for all resources that are not blank: keys agree if and only if the methods do and the paths do, slashes and dashes taken for the same |
| `RarKey.KeysInjective` | models/rar/resource_action_role.go:110-132 | so keys of canonical resources are one-to-one |
| `Roles.SortAndCompact` | models/rar/functionalsupport/slice_support.go:54-74 | the loop skips the leading blanks of the sorted, compacted list |
| `Roles.SortCompactKeeps` | models/rar/functionalsupport/slice_support.go:54-74 | the result ascends without repeats and loses nothing but blanks |
| `Roles.SortCompactExact` | models/rar/functionalsupport/slice_support.go:54-74 | exactly: a member stays if and only if some non-blank member does not come after it in the order |
| `Roles.SortCompactUnique` | models/rar/functionalsupport/slice_support.go:54-74 | lists with the same non-blank elements give the same result |
| `Roles.DiffUnique` | models/rar/functionalsupport/slice_support.go:9-52 | the three results are the two set differences and the intersection, blanks left out, none with repeats |
| `Roles.FindRolesToUpdate` | models/rar/resource_action_role_policy_support.go:54-66 | there are changes if and only if the lists name different roles; then the result is the new roles, sorted |
| `RarPlan.FlattenPolicy` | models/rar/policy_transformer.go:34-73 | the nested loops build the specified map, and each of its values is returned once |
| `RarPlan.GrantsFlat` | models/rar/policy_transformer.go:37-64 | flattened entries correspond to the live actions, and each holds exactly the union of the subjects granted under its lookup key |
| `RarPlan.CalcResourceActionRolesForUpdate` | models/rar/resource_action_role_policy_support.go:14-74 | the loops compute the specified plan |
| `RarPlan.UpdateKeyExact` | models/rar/resource_action_role_policy_support.go:30-43 | an update is filed under the key it was looked up by if and only if the resource's path has no outer white space |
| `RarPlan.Converges` | models/rar/resource_action_role_policy_support.go:14-74 | applying the updates makes each named entry hold exactly the union of the subjects over the policies that name it, changes no other, and a second plan is empty |
| `RarPlan.SettlesExactly` | models/rar/resource_action_role_policy_support.go:14-74 | for entries with distinct keys: some roles leave nothing to update if and only if no two flattened policies ask for different roles for one entry |
| `RarPlan.ConflictNeverSettles` | models/rar/resource_action_role_policy_support.go:14-74 | with such a conflict something is planned in every state, and again after every update |
| `RarPlan.TwoSpellings` | models/rar/resource_action_role_policy_support.go:14-74 | two spellings of one method on one resource with different subjects plan updates for ever |

## Left out

Deliberate limits of members above:

- Parser.ParseFilter: works on words, blanks, brackets and `not` as tokens. Quotes, value paths in `[ ]`, the `not` the lexer finds inside an identifier, and text glued to an open word or value are not modelled; the last is refused with an outcome of its own.
- ParserFold.ParseIsLeftFold: words keep the spelling they were written in; that a parsed value prints as its own word is taken for granted (the source prints `TRUE` and `ANY` in lower case).
- ParserMeaning.AgreementExact: the direction "only if" is about texts without a repeated comparison; with repeats two readings can agree by coincidence. The same holds of the other three results that say so.
- CelRead.RoundTrip: the tree cel-go hands over is described, not computed: any grouping of a run, pairs of `!` cancelled, a `!` before a relation on its left operand. A word that is neither a dotted name nor a literal counts as refused by CEL; which texts are dates and how a number is printed again are parameters, taken to be sane (`CelRead.Sane`). Escapes in strings and a real CEL evaluator's view of `!path op value` are not modelled.
- CelRead.RoundTripExact: the direction "only if" is for trees without a repeated comparison.
- CedarRead.MapCedarConditionToHexa: a clause is `when` or `unless`. A value that ParseValue refuses, and a pattern with a literal star, count as refused nodes (`NOther`), as they are. Quoting escapes quotation marks and backslashes only.
- CedarRead.MapMeaningExact: a comparison whose names are not ordinary ones (`CedarWord.Clean`) counts as beyond IDQL, since its words need not tell its operands; a `like` for contained text and a call of `contains` are both `co` and are one fact.
- CelRead.MapAst: which of several failures is returned is followed in the definitions, and no result is stated about it.
- EqualsExact.EqualsExact: for rules whose comparisons are distinct up to letter case and whose words hold no blank and no bracket; equivalent rules may well compare unequal, as the source says.
- CedarRule.ReadBackExactly: for clauses whose words ParseFilter reads as words (`CedarRule.ClauseWords`).
- Policy.EqualAgreesExact: the etag is taken as injective on what is hashed, which includes that a scope is present but not the scope; a nil subject list is an empty one.
- Reconcile.ReconcilePolicies, Avp.Reconcile: the nil filter that comparing two scopes can dereference (`Policy.EqualAgreesExact`) is not carried into the reconcilers.
- Reconcile.ReconcilePolicies: the identifiers and hashes copied into the entries and the printed messages are not modelled.
- Avp.Reconcile: a request from this provider without a policy id, which the source dereferences, is excluded.
- Avp.SetPolicyInfo: which client calls fail is a parameter; the Cedar statement made for a policy is taken to be stored and read back as that policy, and making it is taken not to fail. Where a stored template is first named by a request for a static policy, an unequal request fails (`Avp.ReplayUpdate`) and an equal one changes nothing (`Avp.EqualStays`).
- ProcessAsync.EveryRun: every block is taken to return; a panic inside a block is not modelled.
- EntityStore.Store.GetEntities: JSON, attributes and reading a consumed reader again are not modelled.
- RarPlan.FlattenPolicy: the order in which the flattened policies are finally sorted; the results hold for every order.
- RarPlan.Converges: existing entries have distinct, non-empty keys, different action and resource pairs have different keys (`RarPlan.SettlesExactly` and `RarPlan.TwoSpellings` show what happens otherwise), roles are trimmed and resource paths have no outer white space (`RarPlan.UpdateKeyExact` shows the last is needed).
- EntityPath.Parse: characters are single values; letter case, here and everywhere, is ASCII case.

Not modelled:

- Value-path expressions: serializing them drops their attribute and both emitters refuse them.
- Attribute name maps, which rename words one by one.
- The internals of sort, Compact and Go maps; map order is arbitrary.
- The GCP bind grouping, the Cedar scope mapper, the deprecated awsCedar format, schema lookup and validation: branches without a law across them.
- HTTP, OAuth, sessions, keys, archives, cloud clients, command line and file handling.
