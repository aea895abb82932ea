# Transcript, CAP goal and module commands

This project models the core of a university transcript manager. The
transcript holds a list of modules. Each module has a code, a year, a
semester, a credit value and a grade. No two modules share the same code,
year and semester.

The transcript keeps a cached CAP (cumulative average point). The CAP is
the credit-weighted average grade point of the completed modules that count
towards it. A student may set a CAP goal. While a goal is set, every change
to the module list runs a projection again. The projection hands target
grades to the modules that can still take one, so that the goal is met. If
it cannot be met, the goal is marked impossible.

Two commands change the transcript:
- `add` puts a new module in.
- `edit` changes the fields of the one module that the target fields name.

The `add` arguments arrive as a token list. A parser checks the tokens
against a fixed table of argument names and sends each value to its own
value parser.

The model is split into these modules:

- `Wrappers`: `Option`, `Result` and `Outcome`.
- `ModuleData`: grades, module identities, modules and the CAP goal, as values.
- `ModuleList`: list filters, credit and point sums, identity uniqueness,
  the stable sort by credit, and the index operations of the module list.
- `CapProjection`: the CAP computation and the target-grade projection. The
  two accumulator loops and the greedy projection loop are methods that are
  proved against functions. Lemmas prove what the projection promises.
- `TranscriptModel`: the `Transcript` class, whose methods update its
  `modules`, `capGoal` and `currentCap` fields, and the `ModelManager` class,
  which counts commits.
- `CommandText`: `String.format` for the one specifier, `%1$s`, that the
  messages use.
- `AddCommand` and `EditCommand`: the two commands. Their `Execute` methods
  act on a `ModelManager`.
- `AddArguments`: the five `add` arguments, with their names and value
  dispatch.
- `AddParser`: the name table, the token checks, the value loop
  (`AddModuleCommandParser.ParseValues`) and `Parse`.

Some behaviour comes from code that is not part of this model. It enters as
function parameters:
- the value parsers of the parser utilities (`ValueParsers`);
- the tokenizer (`tokenize`);
- the module builder (`build`);
- the rendering of a module in messages (`show`).

Grade points, credit totals and the CAP are exact reals, not IEEE doubles.

## Model

| member | source | states |
|---|---|---|
| `ModuleData.CapGoal.MakeIsImpossible` | src/main/java/seedu/address/model/Transcript.java:383-385 | marking a goal impossible keeps whether it is set and its value, and sets the impossible flag |
| `ModuleList.Filter` | src/main/java/seedu/address/model/Transcript.java:202-220 | a filtered view is never longer than the list it is taken from |
| `ModuleList.FilterMembers` | src/main/java/seedu/address/model/Transcript.java:202-220 | an element is in a filtered view exactly when it is in the list and passes the predicate |
| `ModuleList.FilterSplit` | src/main/java/seedu/address/model/Transcript.java:139-146 | the elements that pass a predicate and those that fail it make up the whole list, as a multiset |
| `ModuleList.SortByCreditFacts` | src/main/java/seedu/address/model/Transcript.java:280-281 | sorting by credit gives a permutation of the input: same multiset, same length, same total credit, in non-decreasing credit order |
| `ModuleList.SortByCreditStable` | src/main/java/seedu/address/model/Transcript.java:280-281 | the sort is stable: the modules of any one credit value keep their relative order |
| `ModuleList.SortByCreditSorted` | src/main/java/seedu/address/model/Transcript.java:280-281 | a list already in ascending-credit order is left as it is by the sort |
| `ModuleList.UniqueRemoveAt` | src/main/java/seedu/address/model/Transcript.java:119-122 | removing an entry keeps the list free of duplicate identities, and the removed identity is then absent |
| `ModuleList.UniqueReplace` | src/main/java/seedu/address/model/Transcript.java:109-113 | overwriting an entry with a module whose identity is its own or new to the list keeps the list free of duplicate identities |
| `ModuleList.FirstIndex` | src/main/java/seedu/address/model/Transcript.java:408-419 | the index found holds the first match, no earlier entry matches, and None means that no entry matches |
| `ModuleList.RemoveAt` | src/main/java/seedu/address/model/Transcript.java:119-122 | removing the entry at an index takes exactly that one element out of the multiset of the list |
| `CapProjection.CalculateTotalModuleCredit` | src/main/java/seedu/address/model/Transcript.java:189-195 | the accumulator loop returns the sum of the credits of the list |
| `CapProjection.CalculateTotalModulePoint` | src/main/java/seedu/address/model/Transcript.java:176-182 | the accumulator loop returns the sum of grade point times credit over the list |
| `CapProjection.CalculateCap` | src/main/java/seedu/address/model/Transcript.java:157-169 | the CAP is 0 when the graded modules have no credit; otherwise the CAP times their credit equals their total point, so it is their weighted average |
| `CapProjection.CapBounds` | src/main/java/seedu/address/model/Transcript.java:157-169 | when the graded modules have credit, the CAP lies between the lowest and the highest graded point |
| `CapProjection.CapIgnoresUngraded` | src/main/java/seedu/address/model/Transcript.java:228-230 | a module that is incomplete or does not affect the CAP leaves the CAP as it is |
| `CapProjection.Ceil` | src/main/java/seedu/address/model/Transcript.java:339 | `Math.ceil`: the smallest whole number not below x |
| `CapProjection.HalfUpBounds` | src/main/java/seedu/address/model/Transcript.java:339 | rounding up to a half step gives a multiple of 0.5 that is at least x and less than x + 0.5 |
| `CapProjection.HalfUpMonotone` | src/main/java/seedu/address/model/Transcript.java:339 | rounding up to a half step is monotone |
| `CapProjection.HalfUpAtMostFive` | src/main/java/seedu/address/model/Transcript.java:343-345 | a required average rounds up to at most 5 exactly when it is at most 5 |
| `CapProjection.ClampFacts` | src/main/java/seedu/address/model/Transcript.java:349-351 | raising a unit score of at most 0.5 to 1.0 gives a multiple of 0.5 that is at least 1.0 and never lowers the score |
| `CapProjection.CalculateAndCreateNewTargetModuleGrade` | src/main/java/seedu/address/model/Transcript.java:334-360 | the loop gives None when the first unit score exceeds 5; otherwise it gives the greedy assignment, in which each module takes the rounded, clamped average still required over the credit that remains |
| `CapProjection.SortedTargetableFacts` | src/main/java/seedu/address/model/Transcript.java:280-283 | the sorted targetable modules are a permutation of the targetable ones with the same total credit; with positive credit the last one has positive credit |
| `CapProjection.AssignShape` | src/main/java/seedu/address/model/Transcript.java:348-357 | each projected module is the input module at the same position, carrying a target grade |
| `CapProjection.AssignIdsCredits` | src/main/java/seedu/address/model/Transcript.java:352 | the projection keeps identities and credits position by position |
| `CapProjection.RatioNonIncreasing` | src/main/java/seedu/address/model/Transcript.java:354-356 | after a module is given at least the required average, the average still required over the other credit does not go up |
| `CapProjection.FirstUnitNonIncreasing` | src/main/java/seedu/address/model/Transcript.java:349-356 | the unit score of the next step never exceeds the unit score of the current step |
| `CapProjection.AssignGradeRange` | src/main/java/seedu/address/model/Transcript.java:343-357 | every projected grade is at least 1.0, at most the first unit, and a multiple of 0.5; so once the first unit passes the check against 5, no later unit exceeds 5 |
| `CapProjection.AssignMeetsGoal` | src/main/java/seedu/address/model/Transcript.java:320-357 | the projected grades, weighted by credit, reach the score still to be achieved |
| `CapProjection.CreateTargetsFeasible` | src/main/java/seedu/address/model/Transcript.java:339-345 | the loop succeeds exactly when the score to achieve is at most 5 times the remaining credit |
| `CapProjection.AssignKeepsOrder` | src/main/java/seedu/address/model/Transcript.java:348-357 | the projection keeps length and credits position by position, so it keeps ascending-credit order and a positive last credit |
| `CapProjection.AssignIdempotent` | src/main/java/seedu/address/model/Transcript.java:320-357 | projecting the projected modules again with the same score gives the same grades |
| `CapProjection.CreateTargetsAgain` | src/main/java/seedu/address/model/Transcript.java:320-357 | the loop run over its own output gives the same result |
| `CapProjection.NoTargetableFeasible` | src/main/java/seedu/address/model/Transcript.java:289-298 | with no targetable credit, the goal is met exactly when some credit is counted and the goal times that credit is at most the points already earned |
| `CapProjection.TargetableFeasible` | src/main/java/seedu/address/model/Transcript.java:300-324 | with targetable credit, the goal is met exactly when the points still needed are at most 5 per targetable credit |
| `CapProjection.NewTargetsAssign` | src/main/java/seedu/address/model/Transcript.java:277-303 | a projection that succeeds over targetable credit is the greedy assignment over the targetable modules in credit order |
| `CapProjection.ProjectionFeasible` | src/main/java/seedu/address/model/Transcript.java:277-360 | the conditions under which `getNewTargetModuleGrade` returns a list rather than null, in both directions |
| `CapProjection.FeasibilityMonotone` | src/main/java/seedu/address/model/Transcript.java:277-360 | if a goal can be met, every smaller goal over the same modules can be met too |
| `CapProjection.ProjectionCorrect` | src/main/java/seedu/address/model/Transcript.java:277-360 | a successful projection keeps the identities and total credit of the targetable modules; each projected grade is a multiple of 0.5 from 1.0 to 5.0; the earned points plus the projected points reach the goal times the counted credit |
| `CapProjection.ProjectionShape` | src/main/java/seedu/address/model/Transcript.java:277-360 | a successful projection is empty without targetable credit; otherwise it lists, in credit order, the targetable modules with their target grades |
| `TranscriptModel.RemoveTargetable` | src/main/java/seedu/address/model/Transcript.java:268 | removing the targetable modules leaves exactly the non-targetable ones, in order |
| `TranscriptModel.ProjectedFlags` | src/main/java/seedu/address/model/Transcript.java:269 | the projected modules are targetable, and they count for the CAP only if some replaced module did |
| `TranscriptModel.TargetUpdateGoal` | src/main/java/seedu/address/model/Transcript.java:243-256 | the update keeps whether the goal is set and its value, leaves everything alone without a goal, and marks the goal impossible exactly when the projection fails |
| `TranscriptModel.TargetUpdateModules` | src/main/java/seedu/address/model/Transcript.java:243-270 | the list is unchanged unless the projection succeeds; the non-targetable modules always keep their order; after a successful projection the targetable modules are exactly the projected ones |
| `TranscriptModel.TargetUpdateUnique` | src/main/java/seedu/address/model/Transcript.java:263-270 | the update keeps the module list free of duplicate identities |
| `TranscriptModel.TargetUpdateKeepsCap` | src/main/java/seedu/address/model/Transcript.java:375-378 | when no targetable module counts for the CAP, the update leaves the CAP as it is, so `setCapGoal` may skip the recomputation |
| `TranscriptModel.ProjectedApart` | src/main/java/seedu/address/model/Transcript.java:276-302 | when no targetable module counts for the CAP, the projected modules are targetable and count for the CAP in neither way |
| `TranscriptModel.KeptViews` | src/main/java/seedu/address/model/Transcript.java:263-269 | after the replacement the graded and adjusted views are those before it and the targetable view is the projected modules |
| `TranscriptModel.ReprojectSame` | src/main/java/seedu/address/model/Transcript.java:276-302 | over the list a successful update leaves, the projection returns the same modules again |
| `TranscriptModel.TargetUpdateIdempotent` | src/main/java/seedu/address/model/Transcript.java:243-270 | when no targetable module counts for the CAP, a second update returns the modules and the goal of the first unchanged, and the CAP is that before the updates |
| `TranscriptModel.TargetUpdateKeepingZeroCredit` | src/main/java/seedu/address/model/Transcript.java:243-270 | the corrected update has the goal of the update as written, and the same result whenever the targetable credit is positive |
| `TranscriptModel.TargetUpdateKeepingZeroCreditIds` | src/main/java/seedu/address/model/Transcript.java:263-269 | the corrected update keeps every module identity, with its multiplicity |
| `TranscriptModel.TargetUpdateDropsZeroCredit` | src/main/java/seedu/address/model/Transcript.java:263-269 | a goal of 4.0 over a graded 4-credit module at 5.0 and a targetable module without credit deletes the latter as written; the corrected update keeps it |
| `TranscriptModel.Transcript.constructor` | src/main/java/seedu/address/model/Transcript.java:43-46 | a new transcript has no modules, no goal and a CAP of 0 |
| `TranscriptModel.Transcript.HasModule` | src/main/java/seedu/address/model/Transcript.java:82-85 | true exactly when some module has the identity of the argument |
| `TranscriptModel.Transcript.HasMultipleInstances` | src/main/java/seedu/address/model/Transcript.java:90-93 | true exactly when two different entries carry the code |
| `TranscriptModel.Transcript.FindModule` | src/main/java/seedu/address/model/Transcript.java:408-410 | None exactly when no module has the identity; otherwise the one module with that identity |
| `TranscriptModel.Transcript.FindModuleByCode` | src/main/java/seedu/address/model/Transcript.java:417-419 | None exactly when no module carries the code; otherwise a module that carries it |
| `TranscriptModel.Transcript.CompletedModules` | src/main/java/seedu/address/model/Transcript.java:139-141 | holds exactly the completed modules of the transcript |
| `TranscriptModel.Transcript.IncompleteModules` | src/main/java/seedu/address/model/Transcript.java:144-146 | holds exactly the incomplete modules of the transcript |
| `TranscriptModel.Transcript.CompletedSplit` | src/main/java/seedu/address/model/Transcript.java:139-146 | every module is in exactly one of the completed and the incomplete lists |
| `TranscriptModel.Transcript.CreateNewTargetModuleGrade` | src/main/java/seedu/address/model/Transcript.java:314-324 | the score still needed is the goal times the counted credit minus the points earned, and the result is the projection loop for that score |
| `TranscriptModel.Transcript.GetNewTargetModuleGrade` | src/main/java/seedu/address/model/Transcript.java:277-303 | gives the projection of the current modules under the current goal, None standing for null |
| `TranscriptModel.Transcript.UpdateTargetModuleGrades` | src/main/java/seedu/address/model/Transcript.java:243-256 | the new modules and goal are those of the projection update, the cached CAP is untouched, and the store invariant holds |
| `TranscriptModel.Transcript.ReplaceTargetModules` | src/main/java/seedu/address/model/Transcript.java:263-270 | with no targetable modules nothing changes; otherwise they are removed and the projected ones appended |
| `TranscriptModel.Transcript.ModulesUpdated` | src/main/java/seedu/address/model/Transcript.java:235-238 | the projection update is applied first, and then the CAP is the CAP of the resulting list |
| `TranscriptModel.Transcript.SetModules` | src/main/java/seedu/address/model/Transcript.java:62-65 | a list with two modules of one identity is refused and changes nothing; otherwise it becomes the module list, followed by the update |
| `TranscriptModel.Transcript.ResetData` | src/main/java/seedu/address/model/Transcript.java:70-75 | the other transcript's modules are set, and its goal is then stored without a new projection |
| `TranscriptModel.Transcript.AddModule` | src/main/java/seedu/address/model/Transcript.java:99-102 | a module whose identity is present is refused and nothing changes; otherwise it is appended, followed by the update |
| `TranscriptModel.Transcript.UpdateModule` | src/main/java/seedu/address/model/Transcript.java:109-113 | a missing target and an identity already taken by another module are refused, changing nothing; otherwise the first equal entry is overwritten in place, followed by the update |
| `TranscriptModel.Transcript.RemoveModule` | src/main/java/seedu/address/model/Transcript.java:119-122 | a missing key is refused and nothing changes; otherwise the first equal entry goes, followed by the update |
| `TranscriptModel.Transcript.RemoveModuleWhere` | src/main/java/seedu/address/model/Transcript.java:127-130 | exactly the modules that fail the predicate are kept, in order, followed by the update |
| `TranscriptModel.Transcript.AdjustModule` | src/main/java/seedu/address/model/Transcript.java:427-440 | a completed module is refused; a missing one is refused; otherwise it is removed, its adjusted copy appended and returned, followed by the update; the store invariant holds throughout |
| `TranscriptModel.Transcript.SetCapGoal` | src/main/java/seedu/address/model/Transcript.java:375-378 | a fresh goal with the value, then the projection update only; the cached CAP stays as it was |
| `TranscriptModel.ModelManager.CommitTranscript` | src/main/java/seedu/address/logic/commands/AddModuleCommand.java:79 | each commit is counted once |
| `CommandText.FormatLiteral` | src/main/java/seedu/address/logic/commands/AddModuleCommand.java:82 | a template with no `%` comes back unchanged, whatever the argument |
| `CommandText.FormatTrailing` | src/main/java/seedu/address/logic/commands/EditModuleCommand.java:179 | a template ending in `%1$s` renders as its text followed by the argument |
| `AddCommand.SuccessMessageAsWritten` | src/main/java/seedu/address/logic/commands/AddModuleCommand.java:82 | as written, the success feedback is the duplicate-module message |
| `AddCommand.SuccessIndistinguishableAsWritten` | src/main/java/seedu/address/logic/commands/AddModuleCommand.java:82 | as written, a successful add reads the same as a refused duplicate, and differs from the intended success text |
| `AddCommand.SuccessMessage` | src/main/java/seedu/address/logic/commands/AddModuleCommand.java:36 | the intended success feedback is "Added module: " followed by the rendered module, and differs from the duplicate message |
| `AddCommand.NewAddModuleCommand` | src/main/java/seedu/address/logic/commands/AddModuleCommand.java:45-48 | a null module is refused; otherwise the command holds that module |
| `AddCommand.AddModuleCommand.ModuleToAddNotInTranscript` | src/main/java/seedu/address/logic/commands/AddModuleCommand.java:93-99 | fails, with the duplicate message, exactly when some module has the identity of the module to add |
| `AddCommand.AddModuleCommand.Execute` | src/main/java/seedu/address/logic/commands/AddModuleCommand.java:70-84 | a duplicate is refused and changes nothing; otherwise the transcript appends the module and runs the update, one commit is made, and the feedback is the text line 82 formats, the duplicate message |
| `AddCommand.AddModuleCommand.EqualsAsWritten` | src/main/java/seedu/address/logic/commands/AddModuleCommand.java:108-123 | as written, only the object itself is equal, and a delete command makes the cast fail |
| `AddCommand.EqualsAsWrittenRejectsEqualCommand` | src/main/java/seedu/address/logic/commands/AddModuleCommand.java:115 | as written, another add command for the same module is not equal, whereas the intended equality holds |
| `AddCommand.AddModuleCommand.Equals` | src/main/java/seedu/address/logic/commands/AddModuleCommand.java:108-123 | two add commands are equal exactly when their modules are equal; other kinds of object are never equal |
| `AddCommand.EqualsSymmetric` | src/main/java/seedu/address/logic/commands/AddModuleCommand.java:108-123 | the intended equality between add commands is reflexive and symmetric, and it coincides with equality of the commands |
| `EditCommand.SuccessMessage` | src/main/java/seedu/address/logic/commands/EditModuleCommand.java:179 | the success feedback is "Edited module: " followed by the rendered edited module |
| `EditCommand.NewEditModuleCommand` | src/main/java/seedu/address/logic/commands/EditModuleCommand.java:106-131 | the constructor's assertions hold exactly when a command is built, and the command holds the given fields |
| `EditCommand.EditModuleCommand.GetTargetModule` | src/main/java/seedu/address/logic/commands/EditModuleCommand.java:197-216 | "no such module" exactly when nothing matches; "multiple entries" exactly when two entries match; otherwise the one matching module of the list |
| `EditCommand.EditModuleCommand.CreateEditedModule` | src/main/java/seedu/address/logic/commands/EditModuleCommand.java:240-264 | each field is the new value when one is given, and the target's own value otherwise |
| `EditCommand.EditModuleCommand.ModuleCompletedIfGradeChange` | src/main/java/seedu/address/logic/commands/EditModuleCommand.java:274-282 | refused, with its message, exactly when the target is incomplete and a new grade is given |
| `EditCommand.EditModuleCommand.EditedModuleExist` | src/main/java/seedu/address/logic/commands/EditModuleCommand.java:296-311 | refused, with its message, exactly when some identity field is given and a module of the list, the target included, has the edited identity |
| `EditCommand.EditModuleCommand.Execute` | src/main/java/seedu/address/logic/commands/EditModuleCommand.java:156-181 | a refused edit returns its message and changes nothing; an accepted one overwrites the target in the transcript, runs the update, commits once and returns the success text |
| `EditCommand.TargetMatch` | src/main/java/seedu/address/logic/commands/EditModuleCommand.java:224-232 | a well-formed command names its target by code alone, or by the whole identity when year and semester are given |
| `EditCommand.HalfTargetMatchesNothing` | src/main/java/seedu/address/logic/commands/EditModuleCommand.java:224-232 | with only one of target year and target semester given, no module matches |
| `EditCommand.FullTargetUnambiguous` | src/main/java/seedu/address/logic/commands/EditModuleCommand.java:209-212 | in a duplicate-free list, a target named by its whole identity is never ambiguous |
| `EditCommand.EditKeepsIdentity` | src/main/java/seedu/address/logic/commands/EditModuleCommand.java:298-305 | without a new code, year or semester, the edited module keeps the target's identity |
| `EditCommand.EditChangesNothingIff` | src/main/java/seedu/address/logic/commands/EditModuleCommand.java:171-173 | the "no changes" refusal applies exactly when every given field repeats the target's own value |
| `EditCommand.AcceptedEditApplies` | src/main/java/seedu/address/logic/commands/EditModuleCommand.java:156-181 | an accepted edit meets the transcript's `updateModule` demands: the target is present, the module changes, and its identity is its own or new |
| `EditCommand.AcceptedEditKeepsUnique` | src/main/java/seedu/address/logic/commands/EditModuleCommand.java:176 | applying an accepted edit to a duplicate-free list keeps it duplicate-free |
| `EditCommand.IncompleteGradeChangeRefused` | src/main/java/seedu/address/logic/commands/EditModuleCommand.java:163-164 | a new grade for an incomplete target is refused, whatever else the command says |
| `EditCommand.ResuppliedIdentityRefused` | src/main/java/seedu/address/logic/commands/EditModuleCommand.java:296-311 | re-supplying the target's own identity is refused as a collision, even when credit or grade would change |
| `EditCommand.GradeEditAccepted` | src/main/java/seedu/address/logic/commands/EditModuleCommand.java:156-181 | a different grade for a completed module named by its code alone is accepted, and it changes only the grade |
| `AddArguments.AddArgument.ShortName` | src/main/java/seedu/address/logic/parser/arguments/AddArgument.java:103-105 | "-" followed by the argument's letter |
| `AddArguments.AddArgument.LongName` | src/main/java/seedu/address/logic/parser/arguments/AddArgument.java:113-115 | the long prefix, assumed to be "--", followed by the argument's word |
| `AddArguments.AddArgument.GetValue` | src/main/java/seedu/address/logic/parser/arguments/AddArgument.java:10-74 | fails exactly when this argument's own parser refuses the text; a produced value has this argument's kind and is exactly that parser's value |
| `AddArguments.AllArgumentsComplete` | src/main/java/seedu/address/logic/parser/arguments/AddArgument.java:9-74 | the five arguments are listed once each |
| `AddArguments.ShortNamesDistinct` | src/main/java/seedu/address/logic/parser/arguments/AddArgument.java:10-74 | different arguments have different short names |
| `AddArguments.LongNamesDistinct` | src/main/java/seedu/address/logic/parser/arguments/AddArgument.java:10-74 | different arguments have different long names |
| `AddArguments.ShortAndLongNamesDisjoint` | src/main/java/seedu/address/logic/parser/arguments/AddArgument.java:103-115 | no short name is also a long name |
| `AddParser.BuildNameToArgumentMap` | src/main/java/seedu/address/logic/parser/AddModuleCommandParser.java:61-68 | the static block's loop builds the name table |
| `AddParser.NameToArgumentMapFacts` | src/main/java/seedu/address/logic/parser/AddModuleCommandParser.java:61-68 | both names of every argument lead to it, and the table has no other keys |
| `AddParser.NotInNameTable` | src/main/java/seedu/address/logic/parser/AddModuleCommandParser.java:126 | a token of the wrong shape is not a name in the table |
| `AddParser.Validate` | src/main/java/seedu/address/logic/parser/AddModuleCommandParser.java:92-102 | refuses a count other than 8 or 10 first, then a broken name-value pattern, then an unknown or repeated name; it passes exactly when all three checks hold |
| `AddParser.FillPairs` | src/main/java/seedu/address/logic/parser/AddModuleCommandParser.java:118-130 | each argument in the map holds a value of its own kind |
| `AddParser.FillPairsNext` | src/main/java/seedu/address/logic/parser/AddModuleCommandParser.java:122-129 | one more pair either stops at an unknown name, stops at a refused value, or extends the map by the parsed value |
| `AddParser.FillPairsStops` | src/main/java/seedu/address/logic/parser/AddModuleCommandParser.java:127 | once a value parser throws, later pairs change nothing |
| `AddParser.FillPairsRefusals` | src/main/java/seedu/address/logic/parser/AddModuleCommandParser.java:102-105 | after `validateName`, the loop can only stop at a refused value |
| `AddParser.FillPairsKeys` | src/main/java/seedu/address/logic/parser/AddModuleCommandParser.java:118-130 | without an early stop, the map holds exactly the arguments named by the tokens |
| `AddParser.FillPairsValues` | src/main/java/seedu/address/logic/parser/AddModuleCommandParser.java:118-130 | without an early stop and without aliases, each named argument holds the value parsed from its own pair |
| `AddParser.FieldsOf` | src/main/java/seedu/address/logic/parser/AddModuleCommandParser.java:137-142 | each builder field is read back from the argument map, absent (null) when not given |
| `AddParser.ParseTokensAccepted` | src/main/java/seedu/address/logic/parser/AddModuleCommandParser.java:87-110 | an accepted token list passes all three checks, its values all parse, and the module is built from exactly the named fields |
| `AddParser.ParseTokensValueRefused` | src/main/java/seedu/address/logic/parser/AddModuleCommandParser.java:104-105 | after the checks pass, a value its parser refuses makes `parse` fail with a value error |
| `AddParser.AddModuleCommandParser.ParseValues` | src/main/java/seedu/address/logic/parser/AddModuleCommandParser.java:118-130 | the loop leaves in the argument map the entries of the pairs up to the first failure, and reports that failure |
| `AddParser.AddModuleCommandParser.Parse` | src/main/java/seedu/address/logic/parser/AddModuleCommandParser.java:87-110 | a null string fails with a null pointer; otherwise the result is the token-level parse, and the map is only touched once the checks pass |
| `AddParser.NotNameValuePairRefused` | src/test/java/seedu/address/logic/parser/AddModuleCommandParserTest.java:86-111 | a value in place of a name, or a name in place of a value, is refused as a bad format |
| `AddParser.IllegalNameRefused` | src/test/java/seedu/address/logic/parser/AddModuleCommandParserTest.java:117-124 | a name outside the table is refused as a bad format |
| `AddParser.RepeatedNameRefused` | src/test/java/seedu/address/logic/parser/AddModuleCommandParserTest.java:130-140 | a name given twice is refused as a bad format |

## Left out

- Numbers are exact reals and unbounded integers, not IEEE doubles and 32-bit ints. Rounding error in the projection and the CAP is not modelled.
- `CalculateAndCreateNewTargetModuleGrade`: the last pass of the Java loop divides by a remaining credit of zero (line 356). Its result is never used, so the model does not compute it.
- `CalculateAndCreateNewTargetModuleGrade`: the check for a credit total of zero or less (lines 317-319 and 340-342) cannot fail under the model's precondition that the sorted modules have positive total credit, which `getNewTargetModuleGrade` ensures.
- `ModuleList.Filter`: filtered `ObservableList` views are modelled as new lists, not as live views. `getFilteredModuleList` in the edit command is modelled as the full module list.
- The `assert capGoal.getValue() > 0` in `makeCapGoalPossible` (line 391) is not modelled. The goal is rebuilt from its value with the impossible flag cleared.
- The copy constructor `Transcript(ReadOnlyTranscript)` is covered by `ResetData` on a new transcript. It is not a member of its own.
- `toString`, `equals` and `hashCode` of the transcript and `EditModuleCommand.equals` are left out. They state nothing the model relies on.
- `CapCommand` is not part of this model.
- `String.format` is modelled only for the `%1$s` specifier, the one the messages use.
- The parser utilities (`tokenize`, the value parsers, `argsWithBounds`, `argsAreNameValuePair`, `validateName` and the invalid-format message text) are not part of this model. `Validate` states their checks on the tokens. It takes a token to be a name when it starts with "-", and it takes two names to be duplicates when they are the same string.
- `AddParser.FillPairsValues`: a short name and its long alias (`-m` and `--code`) are different strings, so the checks let both through. The later pair then overwrites the earlier one. The value lemma is stated only for lists without such aliases.
- `ModuleBuilder` is the parameter `build`, and the rendering of a module in messages is the parameter `show`.
- The base `AddArgument.getValue`, which returns null, is never reached, because every constant overrides it.
- The Java `assert`s of the `EditModuleCommand` constructor are modelled as a None result of `NewEditModuleCommand`.
- `NAME_TO_ARGUMENT_MAP` is a static map. It is modelled as a `const` field, filled by the constructor, of each parser object.
- The internals of `UniqueModuleList` are not part of this model. Its `add`, `setModule`, `remove` and `find` are modelled by the duplicate-identity and not-found refusals of the transcript methods.
- Undo and redo history are not modelled. `commitTranscript` is modelled as a counter of commits, and the `CommandHistory` argument of `execute` is left out.
- `CapProjection.NewTargetModules`: when the targetable credit is zero the projection is empty, as in the source (line 297); what the replacement then does to modules without credit is listed under "## Findings".
- `ModuleData.Module.UpdateTargetGrade`: `Module.updateTargetGrade` and the `Grade` class are not part of this model. The model takes the copy to carry the new point with the targeted flag set and every other flag and field unchanged.
- `ModuleData.Module.AdjustGrade`: `Module.adjustGrade` is not part of this model. The model takes the copy to carry the given grade with the adjusted flag set.
- `AddArguments.NamePrefixLong`: `ParserUtil.NAME_PREFIX_LONG` is not part of this model. It is taken to be "--", as the short prefix "-" is taken from the usage text at AddModuleCommand.java:29; `AddArguments.ShortAndLongNamesDisjoint` and `AddParser.NotInNameTable` rely on these two prefixes.
- `TranscriptModel.TargetUpdateIdempotent`: stated only when no targetable module is graded or adjusted for the CAP. Otherwise the first update changes the totals the second one projects from, and a second recompute can change the projected grades.
- `EditCommand.MessageModuleAlreadyExist` follows the source's string literals, which are joined without a space ("Edited modulealready exist.").

## Findings

| source | as written | input that shows it | evidently intended | confidence | as-written member | corrected member |
|---|---|---|---|---|---|---|
| src/main/java/seedu/address/logic/commands/AddModuleCommand.java:82 | the success message is formatted from `MESSAGE_MODULE_ALREADY_EXIST` | adding any module that is not yet in the transcript returns "Module already exist." | format `MESSAGE_ADD_SUCCESS`, giving "Added module: " and the module | not executed | `AddCommand.SuccessMessageAsWritten`, `AddCommand.SuccessIndistinguishableAsWritten` | `AddCommand.SuccessMessage` |
| src/main/java/seedu/address/logic/commands/AddModuleCommand.java:115 | `equals` tests `instanceof DeleteModuleCommand` and then casts to `AddModuleCommand` | two distinct add commands for the same module are unequal; a delete command makes the cast throw | test `instanceof AddModuleCommand` and compare the modules | not executed | `AddCommand.AddModuleCommand.EqualsAsWritten`, `AddCommand.EqualsAsWrittenRejectsEqualCommand` | `AddCommand.AddModuleCommand.Equals`, `AddCommand.EqualsSymmetric` |
| src/main/java/seedu/address/model/Transcript.java:263-269 | with a set goal and no targetable credit, `removeAll` takes out the targetable modules and the empty projection adds none back | a goal of 4.0 over a graded 4-credit module at 5.0 and a targetable module with no credit: the latter disappears from the transcript | leave the modules in place when there is nothing to project | not executed | `TranscriptModel.TargetUpdate`, `TranscriptModel.TargetUpdateDropsZeroCredit` | `TranscriptModel.TargetUpdateKeepingZeroCredit`, `TranscriptModel.TargetUpdateKeepingZeroCreditIds` |
