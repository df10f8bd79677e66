# PARC in Dafny

PARC is a C front end: it parses C headers, extracts their declarations into a source package, and
composes, checks and completes such packages for binding generators.  This project models its
deterministic logic and proves what that logic is for.

| file | what it models |
|---|---|
| `Tables.dfy` | ordered keyed tables and their partial join |
| `Contract.dfy` | packages, declarations, types, diagnostics and their canonical orders |
| `Completion.dfy`, `QueueOrder.dfy` | the need lattice (absent < opaque < definition), the worklist that proves a selection complete, and the worklist taken in any order |
| `NeedMeaning.dfy`, `Defects.dfy`, `Completing.dfy` | which needs chains of uses give, what is wrong with a declaration and where, and when a selection completes, without the worklist |
| `AliasGraph.dfy`, `References.dfy`, `Validation.dfy` | alias cycles, alias chains, references, the completeness check and the limits of the validator |
| `PackageMeaning.dfy`, `Orders.dfy` | when a package is built, said of every row and every type node, and the order of diagnostics |
| `Retain.dfy`, `Merge.dfy` | projection of a package to a selection, and the join of two packages |
| `Retaining.dfy`, `Merging.dfy` | both operations, and what they give and refuse, said of rows and chains of references |
| `CInteger.dfy`, `ConstEval.dfy` | typed integer arithmetic of ISO/IEC 9899:2011, the exact evaluator and the best-effort evaluator |
| `IntegerMeaning.dfy`, `ConstMeaning.dfy` | the same arithmetic as relations between numbers, and exactly when each evaluator returns which value |
| `Declarators.dfy`, `Conventions.dfy` | declarators lowered to types, inside out, and the calling conventions of their attributes |
| `DeclaratorReading.dfy`, `Misreadings.dfy`, `DeclaratorText.dfy`, `FunctionDeclarators.dfy` | the reading of the language, when the code agrees, inputs where it does not, types written as declarators, and functions among declarators |
| `LayerMeaning.dfy` | what each part of a declarator adds, case by case, and what stays of the specifiers' type |
| `Scanning.dfy`, `ExprSyntax.dfy`, `ExprParser.dfy`, `ExprLoops.dfy`, `ExprText.dfy`, `ExprTypes.dfy`, `ExprCasts.dfy`, `ExprRoundTrip.dfy` | white space and names, expression trees and operators, the expression rules of the parser, a printer with minimal parentheses, and the round trip |
| `ExprTokens.dfy`, `ExprReading.dfy`, `ExprLevels.dfy` | the tokens of expressions as literal texts, what each is read as between names and white space, and how they group |
| `ExprGrammar.dfy`, `ExprSoundness.dfy` | the grammar as concrete trees with their texts, and why the parser reads nothing else |
| `Extract.dfy`, `PointerCache.dfy`, `Extractor.dfy`, `DeclaredTypes.dfy`, `OccurrenceIds.dfy`, `Enumerators.dfy` | the extraction state machine, its alias cache, its final report, lowered types before the validator, occurrence ids, enumerator values |
| `ExtractMeaning.dfy`, `Extraction.dfy` | what a run comes to, said of its steps: statuses, kinds, occurrences, diagnostics, and the whole extraction |
| `Framing.dfy`, `TargetCanonical.dfy`, `Identity.dfy` | the length-framed bytes behind fingerprints and ids |
| `CanonicalExample.dfy` | those bytes written out |

Objects that the code updates in place are classes (`Completion.Walk`, `AliasGraph.AliasSearch`,
`Extractor.ContractExtractor`, `OccurrenceIds.OccurrenceOrdinals`,
`TargetCanonical.TargetCanonicalEncoder`), loops are methods with
loops, and each is proved against a function on values.  What such a function means is proved apart
from it, as a relation that does not use it; the main theorems are about those meanings and about
whole runs.

Ids are abstract with equality and a total order; a digest is taken to be injective.  Text is a
sequence of characters, already normalised.

## What the proofs found

Where a promised property does not hold in general, the model keeps the code's behaviour, a lemma
gives an input, and the exact condition is proved:

- Several suffixes at one declarator level are applied in source order, so `int a[2][3]` becomes
  3 arrays of 2 (`Misreadings.TwoDimensionalArray`).  The flag that permits `static` and qualifiers in
  a parameter's bracket is used up by the bracket farthest from the name, so those of
  `int (*a[static 2])[3]` are refused and those of `int (*a)[static 3]` taken
  (`Misreadings.StaticInsideRefused`, `QualifierInsideRefused`, `StaticBehindPointerTaken`).  The
  reading is right exactly when each level's suffixes read the same backwards, every such bracket is
  met with the right flag, and so for the parameters (`DeclaratorReading.ReadsAsC`).
- `restrict` and nullability among the specifiers go on the declared type instead of the specifiers'
  own (`Misreadings.RestrictMisplaced`, `DeclaratorReading.FinishReadsAsC`).
- `is_function_declarator` and `function_parts` look at the outermost level only, so `int (*fp)(int)`
  is taken for a function named fp, and `int (f(int))` and `F f` for a typedef `F` of a function type
  for variables (`FunctionDeclarators.FunctionPointerTakenForFunction`, `FunctionTakenForVariable`,
  `FunctionTypedefTakenForVariable`); the exact conditions are `FunctionDeclarators.FunctionDeclaratorRight`
  and `FunctionDeclarators.FunctionPartsAgree`.
- The exact evaluator tags every unsuffixed constant Signed, so `-0xFFFFFFFF` is evaluated to
  -4294967295 where the language gives 1 (`ConstEval.HexNegation`, `ConstEval.SafeConstants`); the
  comment in the code claims exactness without that condition.
- A left shift is checked only after 128 bits have dropped what is above them, so 2^125 shifted by 3,
  which is to stay unevaluated, is evaluated to 0 (`ConstMeaning.LostBits`); the value is the product
  exactly when that fits 128 bits (`ConstMeaning.LeftShiftRight`).
- Retaining a selection of a valid package can be refused by the validator, when the dropped
  declarations took the last forcing diagnostic with them and an informational recovery note stays
  (`Retain.RetainRefusesTroubled`, `Retain.ProjectedValid`).
- The report of an alias cycle says that the cycle includes the alias it names; that alias may only
  lead to the cycle (`AliasGraph.LeadsOnly`), and no more than that holds in every order
  (`AliasGraph.ValidateAliasCycles`).
- Two valid packages that agree everywhere can be refused as a merge, because their join is over a
  table limit (`Merge.MergeOverLimit`); that is the only way (`Merge.MergedValid`,
  `Merging.MergePackages`).
- A redefinition of a typedef that others name leaves stale entries in the pointer-alias cache
  (`PointerCache.StaleCache`), and types accepted by them fail the validator
  (`DeclaredTypes.StaleTypeRefused`); `PointerCache.SetKindKeepsCache` gives the condition on one call.
- A kept or replacing redeclaration with a partly supported kind overwrites an unsupported status
  (`Extract.ErrorDowngraded`), exactly then (`Extract.ErrorKept`, `Extract.ErrorKeptThroughout`); the
  status never becomes supported again (`Extract.LossIsForever`).

## Model

| member | source | states |
|---|---|---|
| `Completion.IntoComplete` | src/contract/complete.rs:117-276 | the result for every package with an ordered table and every selection: success exactly when the least closure of the selection has no blocker, the closure in the result; otherwise exactly that closure's blockers; `Completing.Complete` says what closure and blockers are |
| `Completing.Complete` | src/contract/complete.rs:117-276 | for every package with an ordered table and every selection: success exactly when nothing stands against what chains of uses reach from the selection, the closure being what they reach, as a definition exactly where a chain ends by using it so; otherwise exactly what stands is reported |
| `NeedMeaning.NeedExactly` | src/contract/complete.rs:280-500 | an id is in the closure exactly when a chain from the selection reaches it, as a definition exactly when a chain uses it by value (through fields, array elements, function results and parameters, alias targets and enum types, never through a pointer), said without the walk or its edges |
| `Completing.CompletesExactly` | src/contract/complete.rs:225-276 | no blocker is found exactly when everything reached is there and free of defects at its need, and the package itself has no unaccounted diagnostic |
| `Completing.UsedByValueComplete` | src/contract/complete.rs:315-345 | on success every record used by value, along whatever chain, is complete |
| `Completing.PackageExactly` | src/contract/complete.rs:121-199 | the package-level blocker stands exactly for a rejected package or a diagnostic that no selected declaration or macro accounts for, with exactly the reasons of those |
| `Defects.DeclarationFactsMean` | src/contract/complete.rs:280-405 | what is reported on a declaration at a need is exactly its defects: unsupported statuses, types, conventions and blocking attributes at their paths, wherever they are nested |
| `Completion.Walk.Enqueue` | src/contract/complete.rs:502-519 | an id enters the queue when it is new or when its need rises from opaque to definition, and its need never falls |
| `Completion.Walk.VisitType` | src/contract/complete.rs:408-500 | the walk over a type demands its need-dependent edges, which `NeedMeaning.NeedExactly` ties to uses by value and behind pointers, and reports its unsupported parts, which `Defects.DeclarationFactsMean` ties to the defects, in order |
| `Completion.Walk.ValidateDeclaration` | src/contract/complete.rs:280-405 | one declaration at one need adds its edges to queue and needs, and its facts to the blockers, and nothing else |
| `Completion.Pop` | src/contract/complete.rs:225-261 | one turn of the source's loop is the turn on the first entry; it keeps the walk's invariant (pending, reported, least) and lowers its measure |
| `Completion.TurnKeepsWalking` | src/contract/complete.rs:225-261 | a turn on any entry of the queue, visited or dropped as stale, keeps the invariant and lowers the measure |
| `Completion.ClosureUnique` | src/contract/complete.rs:225-276 | a selection has one least closure |
| `Completion.NeedMonotone` | src/contract/complete.rs:280-405 | what is demanded and reported at the need Definition covers what is at Opaque, so an upgrade while queued adds and loses nothing |
| `Completion.WalkStarts` | src/contract/complete.rs:201-223 | queueing the roots establishes the walk's invariant |
| `Completion.VisitKeepsWalking` | src/contract/complete.rs:231-255 | visiting an up-to-date entry keeps the invariant, through cycles of records as well |
| `Completion.StaleKeepsWalking` | src/contract/complete.rs:231-237 | skipping an entry whose need was upgraded in between keeps the invariant |
| `Completion.WalkEnds` | src/contract/complete.rs:256-261 | with an empty queue the needs are the least closure and the collected blockers exactly its blockers, both directions |
| `QueueOrder.AnyOrder` | src/contract/complete.rs:225-276 | taking the queue's entries in any order whatever ends, when the queue is empty, in the least closure with exactly its blockers |
| `QueueOrder.OrdersAgree` | src/contract/complete.rs:225-276 | two orders end with the same needs and the same blockers |
| `QueueOrder.QueuedAtMostTwice` | src/contract/complete.rs:502-519 | in every order an id enters the queue at most twice |
| `QueueOrder.EveryOrderEnds` | src/contract/complete.rs:225-261 | no order takes more turns than twice the ids that roots and declarations mention |
| `Completion.OpaqueSelectionClosure` | src/contract/complete.rs:218-222 | the closure of an opaque selection is its roots, all opaque |
| `Completion.OpaqueSelectionSucceeds` | src/contract/complete.rs:238-248 | an opaque selection completes exactly when no package-level blocker stands and every root is a supported record without blocking attribute, complete or not |
| `Retain.DeclarationClosure` | src/contract/compose.rs:130-157 | the least set that contains the roots and is closed under type references and scope owners; on failure a missing id that every such set contains |
| `Retaining.RetainSelection` | src/contract/compose.rs:43-92 | the result holds exactly the declarations that chains of references and owners link to the selection (for all supported ones: to a supported declaration), with the diagnostics that name one of them or none and the completeness these give, everything else unchanged; with present roots (records, for an opaque selection) it is refused only when the validator refuses the projection; a missing declaration is a selected id that is not there |
| `Retaining.LinkedExactly` | src/contract/compose.rs:130-207 | the least closed set is what those chains reach |
| `Retain.ProjectedValid` | src/contract/compose.rs:66-92 | the projection of a coherent package to a reference-closed set is coherent exactly when it stays explained |
| `Retain.ProjectedLimits` | src/contract/compose.rs:66-92 | a projection is within the limits whenever the package is |
| `Retain.OnlyRootsMissing` | src/contract/validate.rs:847-869 | in a validated package only a root can be missing, since the table is closed under its own references |
| `Retain.RetainIdempotent` | src/contract/compose.rs:43-92 | retaining the same selection again gives the same closure and the same package |
| `Retain.ClosureInside` | src/contract/complete.rs:280-500 | every declaration of the need closure is in the reference closure that retaining keeps |
| `Retain.ProjectedClosure` | src/contract/complete.rs:225-276 | the need closure of the retained package is the original one, with the same facts at every member |
| `Retain.RetainKeepsCompleteness` | src/contract/compose.rs:43-92 | a selection that completes on a validated package completes on the retained package with the same closure |
| `Retain.RetainRefusesTroubled` | src/contract/compose.rs:66-92 | a validated package on which retaining a present, supported declaration is refused: the forcing diagnostic goes, an informational recovery note stays |
| `Validation.CompletenessExact` | src/contract/validate.rs:1180-1278 | a completeness that the correspondence and order checks accept is the one computed from the diagnostics, reasons and order included; the computed one is accepted exactly when a complete package carries no diagnostic that breaks completeness |
| `Validation.TryNew` | src/contract/package.rs:67-84 | a package is built exactly when every modelled check passes, the four table limits and the type depth included, that is exactly when it is sound (`PackageMeaning.ValidatedExactly`), and is returned unchanged |
| `PackageMeaning.ValidatedExactly` | src/contract/validate.rs:83-1278 | the checks pass exactly on sound packages: every type node at any depth on its own terms (pointers under `restrict` and nullability, references to declarations of their kind, unsupported forms not supported), no node deeper than 64, no aliases leading back to themselves, tables in order and bounded, entries exactly the marked files, completeness as the diagnostics give it |
| `PackageMeaning.CycleMeans` | src/contract/validate.rs:1158-1178 | the alias graph has a cycle exactly when targets that mention aliases at any depth lead back to where they start |
| `Orders.DiagnosticMeans` | src/contract/diagnostics.rs:68-117 | diagnostics are ordered by the first of their fields that differs: code, stage, severity, impact, message, range, declaration |
| `AliasGraph.ValidateAliasCycles` | src/contract/validate.rs:1158-1178 | at least one violation is reported exactly when the alias graph has a cycle, for every order of roots; each id once, and only ids that lead to a cycle |
| `AliasGraph.AliasSearch.Visit` | src/contract/validate.rs:1462-1484 | the search ends on every graph; true means that the node leads to a cycle, from the start exactly so; false leaves every finished node free of one, although it stops at the first hit |
| `AliasGraph.LeadsOnly` | src/contract/validate.rs:1158-1178 | an alias over one that names itself leads to a cycle without being on it, and is reported as included all the same |
| `AliasGraph.AliasTableSpec` | src/contract/validate.rs:1440-1460 | the searched graph has a node for each alias declaration with all aliases its target mentions |
| `AliasGraph.TypeIsEffectivelyPointer` | src/contract/validate.rs:827-845 | the loop with its visited set computes the chain-following function |
| `AliasGraph.IsPointerExact` | src/contract/validate.rs:827-845 | cutting a chain at a visited alias is exact: the answer is true exactly when some number of steps reaches a pointer |
| `AliasGraph.PointerResolved` | src/contract/validate.rs:827-845 | the pointer check is the question whether the chain ends at a pointer |
| `References.SharedPointer` | src/contract/validate.rs:827-845 | two tables that agree on a reference-closed set resolve every type over it the same way |
| `References.SharedCycle` | src/contract/validate.rs:1158-1178 | a cycle through a shared declaration is a cycle of both tables |
| `References.CheckedRefs` | src/contract/validate.rs:847-869 | a declaration that passes the checks refers only to declarations of its table |
| `Contract.BinarySearch` | src/contract/package.rs:140-147 | the binary search over the ordered table finds the row of an id, and nothing exactly when there is none |
| `Tables.MergeTable` | src/contract/compose.rs:248-262 | one `BTreeMap` pass over both tables: the joined ordered table, or the key of two rows that cannot be joined |
| `Tables.MergeSpec` | src/contract/compose.rs:248-362 | a merge succeeds exactly when the rows of every key agree, and its look-up at each key is the join of both look-ups, in strict key order |
| `Tables.MergeAssociates` | src/contract/compose.rs:248-362 | both groupings of three tables are defined together and equal, for every row join that is itself a partial join |
| `Tables.CollectSpec` | src/contract/compose.rs:364-387 | sorting and removing duplicates gives the strictly ordered list of exactly the given elements |
| `Merge.DeclarationLaws` | src/contract/compose.rs:264-314 | joining two declarations of one id, occurrences merged, is idempotent, commutative and associative on canonical rows |
| `Merge.MacroLaws` | src/contract/compose.rs:296-362 | the same for macros |
| `Merging.MergePackages` | src/contract/compose.rs:100-128 | merging coherent packages gives, when they agree on target, settings and every shared file, declaration and macro, the merge described table by table, validated; it is invalid exactly when that merge is over a limit; every other error names rows of both sides that really disagree |
| `Merging.MergeDefined` | src/contract/compose.rs:248-362 | the parts join exactly when no file id has two files and no declaration or macro id two rows that differ outside their occurrences or share an occurrence id with two contents |
| `Merging.MergeMeans` | src/contract/compose.rs:100-128 | the join is the only package with the union of the tables, rows of one id united in their occurrences |
| `Merging.JoinDeclarationMeans` | src/contract/compose.rs:264-314 | two declarations of one id are refused only for differing fields or one occurrence id with two rows, and their occurrences are the union in id order |
| `Merging.JoinMacroMeans` | src/contract/compose.rs:316-362 | the same for macros |
| `Merge.MergeCommutes` | src/contract/compose.rs:100-128 | merging packages is commutative, failures included |
| `Merge.MergeAssociates` | src/contract/compose.rs:100-128 | merging packages is associative, failures included |
| `Merge.MergeIdempotent` | src/contract/compose.rs:100-128 | a canonical package merged with itself is unchanged |
| `Merge.MergedAcyclic` | src/contract/validate.rs:1158-1178 | the merge of two validated packages has no alias cycle |
| `Merge.MergedPointer` | src/contract/validate.rs:827-845 | every type of a package resolves to pointer or not in the merge as before |
| `Merge.MergedEntries` | src/contract/compose.rs:209-246 | the entry files of a merge are ordered and are exactly the files marked as entries |
| `Merge.MergedValid` | src/contract/compose.rs:100-128 | a join of coherent packages passes every check again (references closed and of the right kind, tables ordered, no cycle, completeness explained), so that it is validated exactly when it is within the limits |
| `Merge.MergedLimits` | src/contract/package.rs:163-171 | a join within the limits has both sides within them |
| `Merge.CheckedCommutes` | src/contract/compose.rs:100-128 | the merge with its limits is commutative |
| `Merge.CheckedAssociates` | src/contract/compose.rs:100-128 | the merge with its limits is associative: no grouping is refused for a size that another avoids |
| `Merge.CheckedIdempotent` | src/contract/compose.rs:100-128 | a canonical package merged with itself is unchanged, or refused when it is itself too large |
| `Merge.MergeOverLimit` | src/contract/validate.rs:83-98 | two validated packages of ten thousand different files each agree everywhere and their merge is refused |
| `Merge.MergedCanonical` | src/contract/compose.rs:100-128 | the join of canonical packages is canonical |
| `ConstEval.EvalExactSound` | src/extract/types.rs:1222-1349 | when the evaluator returns a value, which `ConstMeaning.EvalExactMeans` says when, and the typed evaluation of sections 6.3.1 and 6.5.3 to 6.5.15 of ISO/IEC 9899:2011 is defined, both give the same value, with a signed type behind a Signed tag and a nonnegative value behind an Unsigned one |
| `ConstMeaning.EvalExactMeans` | src/extract/types.rs:1222-1349 | for every expression, environment and target: a value is returned exactly when the expression has one, and it is that one. A binary expression has one exactly when both operands do and fit i128, the operator is one of eight, signs and shift count are permitted and the result of the integers, bit by bit for the bitwise operators, fits `int`, or `unsigned int` when tagged Unsigned; likewise names, constants, characters, signs and casts |
| `ConstMeaning.LeftShiftRight` | src/extract/types.rs:1309-1349 | an evaluated left shift is the product exactly when the product fits 128 bits |
| `ConstMeaning.LostBits` | src/extract/types.rs:1309-1349 | 2^125 with a `u` suffix, shifted left by 3, is evaluated to 0 |
| `ConstMeaning.EvalCMeans` | src/extract/types.rs:1290-1349 | the typed evaluation is that of the standard as a relation: the table of constant types, promotions, conversions, and results on the common type |
| `ConstMeaning.EvalConstMeans` | src/extract/types.rs:1149-1215 | the best-effort evaluator returns a value exactly when the expression has one in 128 bits: division toward zero, shifts below 128, comparisons and logic as 0 and 1, the taken branch, the last comma part |
| `ConstEval.SafeConstants` | src/extract/types.rs:1222-1260 | a constant is evaluated as the language does in every expression built over it exactly when it has a `u` suffix or a signed type |
| `ConstEval.NegatedUnsigned` | src/extract/types.rs:1222-1260 | for every constant outside that condition, its negation shows the difference |
| `ConstEval.HexNegation` | src/extract/types.rs:1222-1260 | on an LP64 target -0xFFFFFFFF is 1 and is evaluated to -4294967295 |
| `ConstEval.EvalExactValid` | src/extract/types.rs:1222-1349 | every value returned fits the 128-bit type of its tag |
| `ConstEval.EvaluatorsAgree` | src/extract/types.rs:1149-1215 | without identifiers and character constants the best-effort evaluator returns every exact value that fits `i128` |
| `CInteger.BitwiseBits` | src/extract/types.rs:1309-1349 | and, or and exclusive or on unbounded two's-complement integers act bit by bit, negative values included |
| `IntegerMeaning.BinaryResultMeans` | src/extract/types.rs:1296-1349 | a typed binary operation is defined with a result exactly when sections 6.5.5 to 6.5.12 give it: operands converted to the common type, result converted if unsigned and undefined if a signed type does not have it |
| `IntegerMeaning.PromotedMeans` | src/extract/types.rs:1290-1300 | a type below `int` is promoted to `int` exactly when that has all its values, and no other type changes |
| `IntegerMeaning.CommonMeans` | src/extract/types.rs:1290-1300 | the common type of two operands is one of theirs, or the unsigned form of a signed one that has not all values of the unsigned other |
| `IntegerMeaning.BitsDetermine` | src/extract/types.rs:1327-1334 | an integer is determined by its bits, so the bitwise results are the only ones |
| `CInteger.CommonKeepsValue` | src/extract/types.rs:1309-1349 | the usual arithmetic conversions keep every value that is nonnegative or meets only signed operands |
| `Declarators.CollectQualifiers` | src/extract/types.rs:724-758 | the qualifier loop collects flags, nullability and its conflicts in source order |
| `DeclaratorReading.CollectMeans` | src/extract/types.rs:724-758 | the loop gathers exactly the qualifiers that are there, in any order and however often, and finds a conflict exactly for two different nullabilities |
| `LayerMeaning.SpecifiersKept` | src/extract/types.rs:125-161 | under the layers of a declared type stands the type of the specifiers, `const`, `volatile` and `_Atomic` exactly where it or the specifiers say so, and nothing else changed |
| `LayerMeaning.PointerMeans` | src/extract/types.rs:709-780 | a pointer has exactly the qualifiers behind its star, and loses support for contradicting nullability or an extension |
| `LayerMeaning.ArrayMeans` | src/extract/types.rs:782-922 | an array has the bound that its constant gives or the code of why it has none, and bracket qualifiers only in a parameter |
| `LayerMeaning.ApplyRefuses` | src/extract/types.rs:253-329 | a declarator with a K&R or block form anywhere is refused with the text of the first one from the outermost level on, and nothing is kept of its type |
| `LayerMeaning.FinishRefuses` | src/extract/types.rs:125-161 | contradicting nullability refuses a type whatever is declared, and so does `restrict` or nullability on what is not taken for a pointer |
| `Declarators.ApplyDerived` | src/extract/types.rs:253-329 | the two passes and the nested declarator compute the function `Apply`, K&R and block forms refused, function suffixes with the convention of their attributes |
| `DeclaratorReading.ReadsAsC` | src/extract/types.rs:253-329 | for every declarator that the language allows, the code reads it as sections 6.7.6.2 and 6.7.6.3 do, with a reading defined apart from the code, exactly when each level's suffixes read the same backwards, each bracket with `static` or qualifiers is met with the flag that its place asks for, and the parameters of its functions are read rightly |
| `DeclaratorReading.ReadsLevelByLevel` | src/extract/types.rs:253-329 | for every declarator without K&R and block forms the readings agree exactly when they do level by level |
| `DeclaratorReading.SingleSuffixReadsAsC` | src/extract/types.rs:253-329 | with at most one suffix per level only brackets and parameters are left to decide it |
| `DeclaratorReading.PlacedExactly` | src/extract/types.rs:782-922 | a bracket is lowered differently inside and outside the outermost place of a parameter exactly when it has `static` or qualifiers, unless conflicting nullability refuses it in both |
| `DeclaratorReading.FinishReadsAsC` | src/extract/types.rs:125-161 | a declared type is the one of section 6.7.3 and 6.7.6, qualifiers included and with a reading of its own, exactly when its declarator is read rightly and `restrict` and nullability among the specifiers are not misplaced |
| `DeclaratorReading.ParametersReadAsC` | src/extract/types.rs:215-251 | a list of parameters is lowered as the language reads it exactly when each of them is |
| `Misreadings.TwoDimensionalArray` | src/extract/types.rs:275-288 | `int a[2][3]` becomes 3 arrays of 2 |
| `Misreadings.StaticInsideRefused` | src/extract/types.rs:275-288 | the parameter `int (*a[static 2])[3]` loses its `static` minimum and its support |
| `Misreadings.QualifierInsideRefused` | src/extract/types.rs:275-288 | the parameter `int (*a[const 2])[3]` loses its qualifier and its support |
| `Misreadings.StaticBehindPointerTaken` | src/extract/types.rs:275-288 | the parameter `int (*a)[static 3]` is accepted although its type is a pointer |
| `Misreadings.RestrictMisplaced` | src/extract/types.rs:125-161 | for a pointer alias `P`, `P restrict *p` restricts p instead of what it points to |
| `DeclaratorText.DeclaratorRoundTrip` | src/extract/types.rs:253-329 | every type of pointers, arrays and functions, parameters with qualified and static arrays included, is what the language makes of the declarator written for it, which keeps its name; and the code lowers it back to the type exactly when no parameter's qualified or static outermost array has another array inside it |
| `DeclaratorText.ParametersRead` | src/extract/types.rs:215-251 | written parameter lists, names included, mean the parameters, and are lowered back exactly under that condition |
| `DeclaratorText.QualifiersRead` | src/extract/types.rs:709-780 | writing pointer qualifiers and nullability and lowering them gives them back |
| `FunctionDeclarators.LowerFunctionParts` | src/extract/types.rs:163-213 | the one-pass reading of a function declarator: the last function suffix wins, a lone `void` is an empty prototype, K&R and block forms give nothing |
| `FunctionDeclarators.PartsMean` | src/extract/types.rs:163-213 | on any level the parts are those of the last function suffix over the type under all pointers and arrays in source order, and there are none without one or beside a K&R or block form |
| `FunctionDeclarators.FunctionPartsAgree` | src/extract/types.rs:163-213 | for a function suffix after pointers, the parts are those of the declared type exactly when the parentheses around the name add nothing, no ellipsis follows a lone `void`, and the specifiers have neither `restrict` nor nullability |
| `FunctionDeclarators.FunctionDeclaratorRight` | src/extract/types.rs:676-681 | over any type, aliases of function types included, a declarator means a function exactly when the suffix nearest its name is a function suffix, or it adds nothing and the alias chain of the type ends at a function; the test of the outermost level is right exactly when it says the same |
| `FunctionDeclarators.SingleSuffixFunction` | src/extract/types.rs:253-329 | with at most one suffix per level that is also exactly when the declarator is lowered to a function |
| `FunctionDeclarators.FunctionTestRight` | src/extract/types.rs:676-681 | with at most one suffix per level the test sees what the declarator says whenever the parentheses around the name add nothing; otherwise that is decided inside them |
| `FunctionDeclarators.FunctionPointerTakenForFunction` | src/extract/types.rs:676-681 | `int (*fp)(int)` counts as a function declarator with parts, while its lowered type is a pointer |
| `FunctionDeclarators.FunctionTakenForVariable` | src/extract/types.rs:676-681 | `int (f(int))` declares a function, is lowered to one, and counts as no function declarator |
| `FunctionDeclarators.FunctionTypedefTakenForVariable` | src/extract/mod.rs:346-385 | `typedef int F(int); F f;` declares a function and becomes a variable of type F |
| `Conventions.DeclaratorCallingConvention` | src/extract/types.rs:924-965 | the recursive search with its early exit computes the convention of the attributes from the declarator inward |
| `Conventions.DeclarationConvention` | src/extract/mod.rs:1692-1716 | the search over a declaration's attributes fails exactly when the other one finds a conflict or a malformed attribute, with the text of the malformed one or all texts up to the conflict, and otherwise finds the same convention |
| `Conventions.ConventionSpec` | src/extract/types.rs:924-965 | the order of attributes does not matter: a convention is found exactly when some attribute names it, none names another and none is malformed, and the default exactly when none says anything |
| `Conventions.SeenExactly` | src/extract/types.rs:924-965 | the search for a type sees exactly the attributes of the declarator's levels, that for a declaration those of their pointers as well |
| `Conventions.BadMeans` | src/extract/types.rs:924-965 | a list is bad exactly when some attribute is malformed or names another convention than an earlier one, and is reported with the texts up to the first such attribute |
| `Conventions.ConventionsAgree` | src/extract/mod.rs:1613-1659 | the convention of a function declaration is that of its declarator exactly when no attribute names one or an attribute of the declarator itself does |
| `Conventions.NearestSpreads` | src/extract/types.rs:253-329 | a convention named next to the declared name is that of every function in the lowered type, however far out, unless a conflict is found there |
| `ExprLoops.InfixParse` | src/parser/casts_and_binary.rs:125-962 | the precedence-climbing loop computes `ParseInfix` |
| `ExprLoops.ExpressionParse` | src/parser/conditional_assignment_and_expression.rs:423-502 | the repetition of comma parts computes `ParseExpression` |
| `ExprLoops.PostfixParse` | src/parser/postfix_and_compound.rs:30-124 | the repetition that collects suffixes and folds them over the primary expression computes `ParsePostfix` |
| `ExprLoops.ParseArguments` | src/parser/postfix_and_compound.rs:148-205 | the repetition of arguments with its separators computes `Arguments` |
| `ExprText.OtherFails` | src/parser/casts_and_binary.rs:131-957 | on the text of one operator every other entry of the table fails, although several are prefixes of it: by the lookahead of `&` or because no operand starts with what is left |
| `ExprText.TablePicks` | src/parser/casts_and_binary.rs:131-957 | the table picks exactly the printed operator and its right operand one level up |
| `ExprText.TooLow` | src/parser/casts_and_binary.rs:131-957 | nothing of a higher level applies to the text of an operator |
| `ExprText.NotAssignment` | src/parser/conditional_assignment_and_expression.rs:210-392 | no assignment is read off a binary operator; what `=` leaves of `==` is no operand |
| `ExprRoundTrip.NoAssignmentRead` | src/parser/conditional_assignment_and_expression.rs:175-261 | the assignment rule, tried first, fails on every tree that is not an assignment |
| `ExprRoundTrip.SuffixParses` | src/parser/postfix_and_compound.rs:137-460 | an increment, decrement, index, call or member access is read back with the expressions inside it, whatever follows |
| `ExprRoundTrip.PostfixChain` | src/parser/postfix_and_compound.rs:30-124 | a chain of increments, decrements, indexing, calls and member accesses is read from the left and the repetition goes on with the whole chain |
| `ExprRoundTrip.UnaryParses` | src/parser/unary_sizeof_alignof.rs:30-600 | a printed unary expression is read back: names, parentheses, suffixes and prefix operators, `sizeof` of types and of expressions, the single `&` told from `&&` |
| `ExprRoundTrip.CastParses` | src/parser/casts_and_binary.rs:30-109 | a printed cast expression is read back, casts as casts and nothing else as one |
| `ExprTypes.NotAType` | src/parser/casts_and_binary.rs:64-109 | the parentheses of a printed operand are never read as those of a type, whatever names are types |
| `ExprRoundTrip.CastNotAssigned` | src/parser/conditional_assignment_and_expression.rs:210-261 | the assignment rule, which meets the type's parentheses as a unary expression and what follows as its suffixes, fails on every cast |
| `ExprRoundTrip.CastOrOperator` | src/parser/casts_and_binary.rs:64-109 | for an operator that is both binary and prefix, `(n) op x` is a cast when n is a type and a binary operation otherwise |
| `ExprRoundTrip.InfixParses` | src/parser/casts_and_binary.rs:125-962 | at each of the ten levels a printed tree is read with left associativity and the loop goes on with the whole tree on its left |
| `ExprRoundTrip.ConditionalParses` | src/parser/conditional_assignment_and_expression.rs:30-144 | a printed conditional expression is read back |
| `ExprRoundTrip.AssignmentParses` | src/parser/conditional_assignment_and_expression.rs:175-392 | a printed assignment, nested to the right, is read back |
| `ExprRoundTrip.ExpressionParses` | src/parser/conditional_assignment_and_expression.rs:423-543 | a printed tree is read back, comma lists included, before anything that cannot continue it |
| `ExprRoundTrip.ParsePrint` | src/parser/conditional_assignment_and_expression.rs:423-502 | parsing undoes printing for every well-formed tree; `ExprReading` and `ExprLevels` state in literal texts what the printed tokens are, and `ExprSoundness.ParsedIsGrammar` that nothing else is read |
| `ExprRoundTrip.PrintParse` | src/parser/conditional_assignment_and_expression.rs:423-502 | whatever was read from any text is read again from its printed form, and no other tree prints so |
| `ExprSoundness.ParsedIsGrammar` | src/parser/conditional_assignment_and_expression.rs:423-502 | whatever is read as an expression from any text: what is consumed is the text of a concrete tree of the grammar, parentheses, white space and operator levels included, that stands for the expression returned, with white space behind it |
| `ExprSoundness.InfixSound` | src/parser/casts_and_binary.rs:125-962 | at each of the ten levels the loop consumes a text of that level: left operands at the level, right operands one level up |
| `ExprRoundTrip.LevelsOfTheGrammar` | src/parser/casts_and_binary.rs:131-957 | the text of each operator is one of those that sections 6.5.14 down to 6.5.5 put on its level; which one it is, `ExprReading.BinaryRead` states |
| `ExprRoundTrip.TwoOperators` | src/parser/casts_and_binary.rs:125-962 | for all pairs of operators, `x a y b z` groups by those levels, and from the left at one level |
| `ExprRoundTrip.TwoAssignments` | src/parser/conditional_assignment_and_expression.rs:175-392 | `x a y b z` with two assignment operators groups from the right |
| `ExprReading.BinaryRead` | src/parser/casts_and_binary.rs:131-957 | for every entry of a literal table of the eighteen operators, all names and any white space, `x op y` is read as that operator of both names |
| `ExprReading.AssignRead` | src/parser/conditional_assignment_and_expression.rs:263-392 | the same for the eleven assignment operators |
| `ExprReading.PrefixTokenRead` | src/parser/unary_sizeof_alignof.rs:30-600 | the same for the eight prefix operators |
| `ExprReading.DoubleAmpersand` | src/parser/unary_sizeof_alignof.rs:30-600 | `&&` starts no expression: it is not two addresses |
| `ExprReading.CallTokenRead` | src/parser/postfix_and_compound.rs:148-205 | a call with any number of names as arguments and any white space is read as that call |
| `ExprReading.MemberTokenRead` | src/parser/postfix_and_compound.rs:137-460 | `x . m` is a member of the value and `x -> m` one of what it points to |
| `ExprReading.IndexTokenRead` | src/parser/postfix_and_compound.rs:137-460 | `x [ y ]` is read as an index |
| `ExprReading.PostfixTokenRead` | src/parser/postfix_and_compound.rs:137-460 | `++` and `--` behind a name are read as such |
| `ExprReading.CommaRead` | src/parser/conditional_assignment_and_expression.rs:423-502 | names between commas are read as the comma operator over all of them |
| `ExprReading.ConditionalRead` | src/parser/conditional_assignment_and_expression.rs:30-144 | `x ? y : z` is read as that conditional expression |
| `ExprReading.CastTokenRead` | src/parser/casts_and_binary.rs:64-109 | a typedef name with any stars in parentheses before a name is read as that cast |
| `ExprReading.SizeOfTypeTokens` | src/parser/unary_sizeof_alignof.rs:30-600 | `sizeof` of such a type is the size of the type; before a name (`SizeOfNameRead`) it is that of the value |
| `ExprReading.ParenthesesRead` | src/parser/primary_and_generic.rs:30-282 | a name in parentheses is that name, type or not |
| `ExprLevels.BinaryBinary` | src/parser/casts_and_binary.rs:125-962 | any two operators in a row group by the literal level numbers of the table, and from the left at one level |
| `ExprLevels.ParenthesesLeft` | src/parser/casts_and_binary.rs:125-962 | parentheses on the left undo the levels |
| `ExprLevels.ParenthesesRight` | src/parser/casts_and_binary.rs:125-962 | parentheses on the right undo the levels and the grouping from the left |
| `ExprLevels.TightLeft` | src/parser/casts_and_binary.rs:30-130 | prefix operators, casts and `sizeof` bind closer than every binary operator (`TightRight`: on either side), and suffixes closer still (`SuffixBinds`) |
| `ExprLevels.ConditionalBinary` | src/parser/conditional_assignment_and_expression.rs:30-144 | the conditional operator is looser than every binary operator; two of them (`TwoConditionals`) group from the right |
| `ExprLevels.AssignmentBinary` | src/parser/conditional_assignment_and_expression.rs:175-392 | assignment is looser than every binary operator, than the conditional operator (`AssignmentConditional`), and groups from the right (`AssignmentAssignment`) |
| `ExprTokens.IdentifierExactly` | src/parser/identifiers_and_integers.rs:24-91 | a name is read exactly when the text starts with it, it is made of letters, digits and underscores, starts with no digit, is no reserved word, and no such character follows |
| `ExprTokens.WhiteSkipped` | src/parser/prelude.rs:131-222 | blanks, tabs and line ends are skipped, a `#` line up to its end (`DirectiveSkipped`), and nothing else (`SkipStops`) |
| `Extractor.ContractExtractor.AddOccurrence` | src/extract/mod.rs:972-1066 | the new state: an occurrence at the end of the draft, or one scoped diagnostic |
| `Extractor.ContractExtractor.SetKind` | src/extract/mod.rs:1068-1131 | the new state: kept, replaced or conflicting draft, its diagnostic, the alias cache |
| `Extractor.ContractExtractor.ApplyExtensionSupport` | src/extract/mod.rs:1133-1205 | the new state: support lost and reported for each bad or unmodelled extension |
| `Extractor.ContractExtractor.Finish` | src/extract/mod.rs:1343-1476 | exactly the due diagnostics, ordered without duplicates, and exactly the drafts with occurrences as declarations, ordered by id, each with the scope and header of its entity, the occurrences, kind and status of its draft, or PARC-E1209 where that has no kind |
| `Extraction.ExtractContract` | src/extract/mod.rs:36-44 | for every run, said of its steps alone: exactly the declarations with a placed occurrence are emitted, each with its entity's scope and header, those occurrences in id order, and the kind and status that the steps give it or PARC-E1209; every one that is not supported has its forcing diagnostic; the output is exactly what the steps cause and what is still to report; and it rejects exactly for an unnamed declarator, an unplaced tag or an indexed declaration without occurrence |
| `ExtractMeaning.StatusUnique` | src/extract/mod.rs:1068-1205 | after every run the status of a declaration is the last one that a step gave it (a clash, a lost status inside a kind, a bad extension, an alignment), or partial when a step only found an unmodelled attribute, or supported |
| `ExtractMeaning.KindSupportMeans` | src/extract/mod.rs:2006-2062 | the status of a kind is the first one in it, in source order and at any depth, that is not supported |
| `ExtractMeaning.KindMeans` | src/extract/mod.rs:1068-1131 | after every run the kind of a declaration is that of its last clash, and without a clash the first kind with content, or else the first one |
| `ExtractMeaning.RedeclarationMeans` | src/extract/mod.rs:1528-1603 | a redeclaration conflicts exactly when the two cannot be one entity, and otherwise replaces exactly when it alone has content |
| `ExtractMeaning.ReportsMean` | src/extract/mod.rs:972-1205 | the diagnostics of a run are exactly those that its steps cause, with literal codes, severities and ranges |
| `Extraction.DueMeans` | src/extract/mod.rs:1343-1447 | what is due at the end is what the steps cause, PARC-E1208 for an indexed declaration without occurrence, PARC-E1209 for one without a kind, and each status whose code nothing reported |
| `Extractor.SortByIdSpec` | src/extract/mod.rs:1448-1454 | the occurrences of a declaration come out in id order, none lost or doubled |
| `OccurrenceIds.OccurrenceOrdinals.Next` | src/extract/mod.rs:1018-1024 | the ordinal of an occurrence is the number of earlier occurrences of its declaration with the same tokens |
| `OccurrenceIds.DerivedSorted` | src/scan/mod.rs:438-488 | whatever files their ranges are mapped to, the occurrences of a declaration have different ids and sort into strictly ascending ones |
| `OccurrenceIds.EmittedOccurrences` | src/extract/mod.rs:1343-1476 | after every run an emitted declaration has occurrences, exactly those placed on it, in the strict order that the validator demands |
| `Extract.RunKeepsScoped` | src/extract/mod.rs:1299-1341 | over every run a diagnostic that names a declaration forces the package to be partial and never rejects it |
| `Extract.RunRejects` | src/extract/mod.rs:1248-1259 | over every run a rejecting diagnostic exists exactly when a declarator without a name or an anonymous tag without a place was met |
| `Extract.LossIsForever` | src/extract/mod.rs:1068-1076 | a lost Supported status is never regained |
| `Extract.ConflictIsForever` | src/extract/mod.rs:1085-1102 | a conflict is absorbing |
| `Extract.ConflictReported` | src/extract/mod.rs:1085-1117 | a conflict on a declaration with an occurrence is reported on it |
| `Extract.ErrorDowngraded` | src/extract/mod.rs:1068-1076 | an alignment fault, then the same partly supported variable again: the unsupported status becomes partial |
| `Extract.ErrorKept` | src/extract/mod.rs:1068-1102 | an unsupported status survives a step exactly when the step does not set a partly supported, non-conflicting kind on its declaration |
| `Extract.ErrorKeptThroughout` | src/extract/mod.rs:1068-1102 | over every run an unsupported status stays unsupported throughout exactly when no step of the run does so |
| `Extract.RunOutcome` | src/extract/mod.rs:1068-1102 | the kind of a draft depends only on the sequence of kinds set for it |
| `Extract.KeptExactly` | src/extract/mod.rs:1528-1603 | a function, variable, alias or unsupported form is kept exactly for an equal signature, so keeping is an equivalence |
| `Extract.FoldIsMeaning` | src/extract/mod.rs:1528-1590 | folding redeclarations one by one gives the meaning of the list: all compatible with the first, and the one definition of a tag wherever it occurs, conflict with two |
| `Extract.RunMeaning` | src/extract/mod.rs:1068-1131 | so after every run each declaration is the meaning of its redeclarations |
| `Extractor.UnsupportedReported` | src/extract/mod.rs:1403-1447 | after every run each unsupported or partial declaration has a forcing diagnostic with its id and status code, and the package is not complete |
| `Extractor.RejectedExactly` | src/scan/mod.rs:209-340 | the scanned package is rejected exactly for an unnamed declarator, an unplaced anonymous tag, an indexed declaration without occurrence, or a rejecting diagnostic that scanning adds |
| `Extractor.AcceptedIsSupported` | src/extract/mod.rs:2006-2062 | a kind in which completion finds no blocker at the need Definition keeps its declaration supported |
| `PointerCache.SetKindKeepsCache` | src/extract/mod.rs:1117-1131 | an exact pointer-alias cache stays exact exactly when no other alias names this one as target or the call neither defines it as a pointer alias nor drops it by a conflict |
| `PointerCache.RunKeepsCache` | src/extract/mod.rs:1117-1131 | over every run with aliases defined before use and no conflict the cache holds exactly the aliases whose chain meets a pointer |
| `PointerCache.StaleCache` | src/extract/mod.rs:1117-1131 | after a conflict on an alias another one keeps a stale entry |
| `PointerCache.CacheIsValidator` | src/extract/mod.rs:1605-1611 | after such a run the cache answers for every type as the validator does |
| `Extractor.CacheAfterFinish` | src/extract/mod.rs:1605-1611 | the same on the emitted declarations |
| `DeclaredTypes.AcceptedPasses` | src/contract/validate.rs:660-720 | a type whose `restrict` or nullability was accepted with any cache passes the validator's pointer check on later declarations exactly when its alias, if it is one, leads to a pointer there |
| `DeclaredTypes.CacheDecides` | src/extract/types.rs:125-161 | with the cache of the emitted state that is exactly when the cache is exact on the alias |
| `DeclaredTypes.OrderlyTypesPass` | src/extract/types.rs:125-161 | a type lowered at any moment of a run with aliases defined before use and no conflict passes the check, in every type inside it, on what is emitted at the end |
| `DeclaredTypes.StaleTypeRefused` | src/contract/validate.rs:660-720 | after a conflict, `B _Nullable x` over the stale alias is accepted and refused by the validator |
| `Enumerators.LowerEnumerators` | src/extract/mod.rs:866-951 | the loop emits the counted values of the enumerators that have a place, passing over the others, without those whose tokens or text are unusable |
| `Enumerators.ImplicitValues` | src/extract/mod.rs:872-906 | the k-th enumerator after a value without expressions is k more with its tag, unevaluated exactly past the 128-bit range or after an unevaluated one |
| `Enumerators.EnumerateCounts` | src/extract/mod.rs:829-918 | the values are the only list that follows the counting rule of section 6.7.2.2 at every enumerator, names of earlier values included |
| `Enumerators.EnumeratorsSound` | src/extract/mod.rs:829-918 | each evaluated enumerator has the value of the language: that of its expression, with earlier enumerators as `int` constants, or one more than the one before, wherever the language defines it and constants are tagged as it types them |
| `Enumerators.EmittedSound` | src/extract/mod.rs:866-951 | the same for what the loop emits, read as the enumeration without the enumerators that have no place |
| `Enumerators.EmittedExactly` | src/extract/mod.rs:866-951 | the loop emits exactly the enumerators with a place and tokens, and text where an expression has no value, in order, each with its name and the value that the counting rule gives it |
| `Framing.FramesInjective` | src/contract/canonical.rs:54-58 | length-framed field lists have equal bytes only when they are equal |
| `CanonicalExample.FrameLayout` | src/contract/canonical.rs:54-58 | a framed field is eight bytes that stand for its length, lowest first, and then the field |
| `Framing.CanonicalTokensBytes` | src/contract/ids.rs:12-18 | the token loop writes the framing of the tokens |
| `TargetCanonical.TargetCanonicalEncoder.Bytes` | src/contract/target.rs:1778-1782 | one more framed field and nothing else |
| `TargetCanonical.CanonicalPartsBytes` | src/contract/target.rs:1658-1695 | the encoder writes the framing of the fields of a target, section by section |
| `TargetCanonical.PartsInjective` | src/contract/target.rs:1658-1767 | targets with equal field lists are equal, across optional and counted sections |
| `TargetCanonical.CanonicalBytesInjective` | src/contract/target.rs:1658-1801 | targets have equal canonical bytes exactly when they are equal |
| `TargetCanonical.ModelSplits` | src/contract/target.rs:1697-1767 | the fields of a C data model can be read off the front of any list, explicit classes and formats included |
| `TargetCanonical.HeaderSplits` | src/contract/target.rs:1803-1869 | the header fields, enumeration names among them, can be read off the front of any list |
| `CanonicalExample.TargetText` | src/contract/target.rs:1658-1767 | the fields of a target all of whose parts differ, written out in order |
| `CanonicalExample.IdentityText` | src/contract/ids.rs:213-333 | the fields behind the ids of entities, occurrences and children, one of each kind, written out |
| `Identity.EntityInjective` | src/contract/ids.rs:213-249 | entities, named or anonymous, in whatever scopes, are hashed from the same bytes exactly when they are equal |
| `Identity.OccurrenceInjective` | src/contract/ids.rs:271-299 | equal occurrence bytes are equal owner, file, tokens and ordinal, tokens being framed inside a frame |
| `Identity.ChildrenCollide` | src/contract/ids.rs:301-333 | children have equal bytes exactly when parent, role, key and ordinal agree; within one way of naming only when they are the same child |
| `Identity.NamesAreNotFramings` | src/contract/ids.rs:308-333 | a name without zero byte is never the key of an unnamed child |
| `Identity.ChildInjective` | src/contract/ids.rs:301-333 | children, however they are named, are hashed from the same bytes exactly when they are equal, for names without a zero byte |

## Left out

- Completion blockers are compared as a set: their final sort by display text, and the path text inside them, are presentation.
- The closure in a completion result is a map; the code lists it in id order.
- Validation.TryNew: the checks that read one row and the file it names (text shapes, ranges inside files, ids against the fields they are digests of, provenance, attributes) and the package fingerprint are not modelled. Projection drops rows, merging joins them whole and neither drops a file, so that these checks see the same; ids checked against their parents cannot repeat across rows.
- Merging.MergePackages: the six input settings that must be equal are one text, and file provenance and macro contents are compared whole.
- Declarators: attributes other than calling conventions, K&R and block declarators beyond their refusal, and the specifiers that give the base type.
- Conventions: which attribute names are conventions, and how the argument of `pcs` is decoded.
- DeclaratorText.DeclaratorRoundTrip: bracket nullability is lowered by the model but not written; conventions are those already found for each function suffix.
- DeclaratorReading.ReadsAsC: the declarators that sections 6.7.6.2 and 6.7.6.3 rule out (functions beside another suffix of their level, identifier lists in parameters) have no reading; `ReadsLevelByLevel` covers their levels.
- ExprRoundTrip.ParsePrint: trees over names, parentheses, the prefix operators, casts and `sizeof` for types that are a typedef name with stars, increments and decrements, indexing, calls and member access; other type names, alignof, literals, generic selections, compound literals and vendor extensions are not modelled, and source spans are dropped; keywords and literal words are one set of reserved names.
- ExprReading.CastTokenRead: with white space inside the parentheses it is stated for the cast rule; with single blanks whole expressions are covered by `ParsePrint` and `ExprLevels`.
- ConstMeaning.EvalConstMeans: sizes behind a `sizeof` are those of 64 bits, as in the code.
- ExprRoundTrip.PrintParse: the same operand forms; a text with any other is outside the modelled parser.
- ExprRoundTrip.UnaryParses: the same operand forms.
- ConstEval: the size behind a `sizeof` and the integer type behind a cast's typedef are given with the expression, and character constants are read as the code reads them, one plain character only.
- Enumerators.LowerEnumerators: the attributes and support of an emitted enumerator, and the text of an unevaluated one.
- Extractor.ContractExtractor.AddOccurrence: visibility is part of the opaque header; how attributes are read off the source is not modelled.
- Extractor.ContractExtractor.Finish: the related ranges and target of a diagnostic and the provenance of a declaration are not fields of the model; the id, scope and name of a declaration come from a map that indexing is taken to have filled.
- Extract: the syntax walk that produces the steps (declarators, fields, bit widths, alignment) is the run itself; any sequence of steps is allowed.
- Identity: name and path normalisation, and the digest; file and macro ids, which hash one or two fixed fields.
- TargetCanonical: the checks on a target before it is encoded, which only shrink the set of targets.
- The JSON codec and its wire types, the drivers, file reading, scanning and external preprocessors: input and output.
- The remaining grammar (declarations, statements, attributes, asm) and the printer of syntax trees: the same generated pattern, or presentation.
