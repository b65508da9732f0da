# YrestAPI in Dafny

YrestAPI answers JSON requests (filters, sorts, presets) over a graph of YAML models. It compiles them to SQL and rebuilds
nested JSON from the rows. This project models the parts of it whose correctness is not visible in any single function, and
proves what they are for. `dafny verify dfyconfig.toml` checks everything.

## What is modelled

**The query compiler.** `Schema` is the linked model registry (`Common` holds the few definitions all parts share).
`AliasExpansion` and `Normalization` expand short path aliases in paths and filter keys; `KeyRenaming` says when
rewriting the keys of a tree depends on their order. `Filters` holds filter trees, SQL conditions and three-valued truth.
`PathOrder` and `FiniteOrder` are the sorted path lists. `AliasMaps` gives every relation path a table alias, `Joins` is the
recursive walk that builds the LEFT JOIN list over a shared map, `WhereSplit` splits the filter tree into WHERE and HAVING.
`Rows` is what LEFT JOIN means on lists of rows and which row an alias reads, `CountQuery` the choice between `COUNT(*)` and
`COUNT(DISTINCT main.id)`. `QueryPlan` puts them together: the count a plan returns is the number of root rows that have a
joined row on which the filter tree, as it was written, is true.

**Graph walks.** `PresetInheritance` is the memoised depth-first search over `extends`. `PresetGraph` is the preset validator
with `max_depth`, and the path collector that has to agree with it. Alias expansion is the third walk.

**Batched relation loading.** `Hydration` runs one child goroutine per relation as a state machine, the race on the shared
`err` variable and the tails that share a key included. `ChildRows` is the child query, its limit, the unwrapping of
intermediate rows and the grouping. `Resolver` collects the ids, stitches the rows back and compares the batched plan with one
query per parent. `Unwrapping` is the second look for the records of `through` relations, in the parent's finalisation, and
`TailPresets` collects the tails of a preset and puts the steps together.

**The alias-map cache.** `AliasCache` is the time to live, the sweep and the byte budget. `AliasServer` is the server that
hands out shared maps, to requests with any presets, and grows them in place. `CanonicalText` is the text that keys the cache.

**Text and trees.** `LogTail` is the backward chunked log reader, `GraphQLImport` the selection parser and its printer,
`GraphQLGrammar` the grammar it accepts, `Qualify` the SQL identifier qualifier, `FoldRows` the fold of dotted rows.

Code that updates things step by step is imperative here too: classes with the source's fields and methods proved against a
specification function, about which the lemmas then speak. Loops over Go maps take the keys in any order. Each proof hides the
definitions it does not need.

## Where the code does not do what one might expect

Each of these is a lemma that gives the exact condition.

- A plain value under `or` or `and` is dropped by the WHERE/HAVING split, while the unsplit form reads it as a field named
  `or`. The split is exact if and only if what it keeps demands the dropped conditions anyway (`WhereSplit.SplitIsExact`); in
  particular if these keys hold groups, and only then unless a dropped condition is compiled from another key as well
  (`WhereSplit.GroupsAreSplitExactly`).
- A `belongs_to` relation with `through` is counted once per intermediate row. The count is right if and only if no root row
  is referred to twice (`CountQuery.BelongsToThroughOvercounts`); for any join list see `CountQuery.CountIsExact`.
- An alias and its expansion used side by side as filter keys lose one condition, and map order decides which
  (`Normalization.ClashLosesACondition`), unless both hold the same value (`Normalization.ResultIsDeterminedExactly`).
- A key that ends in `__` asks for nothing, but turns into an equality as soon as some other key is expanded
  (`Normalization.EmptyOperatorBecomesEquality`); `Normalization.NormalizedMeaning` is what the result means
  whenever clashing entries agree.
- An alias that is met again while its own body is walked is expanded for ever, and nothing else is
  (`AliasExpansion.AliasesSettleExactly`).
- `get` drops an expired entry without subtracting its bytes, exactly between two sweeps
  (`AliasCache.GetLeaksExactlyBetweenSweeps`). Maps that grow in the cache break the byte budget if and only if they gain more
  than was leaked (`AliasCache.GrowthBreaksTheBudget`, `AliasCache.RunStaysWithinBudget`).
- The cache key holds a preset by its name only. A hit serves a request if and only if the map knows the request's own preset
  (`AliasServer.ServedExactly`). The preset made for an intermediate model is named after a preset of the target. After a
  direct request for a preset of that name with a t0, it is served if and only if that t0 stands for the relation
  (`AliasServer.ThroughAfterDirectExactly`); for the other order see `AliasServer.DirectAfterThroughExactly`.
- Two tails with one key race for the same slot if and only if their answers differ (`Hydration.SharedKeysRaceUnlessEqual`).
  Both query with the ids of the later one, so the other's ids are lost unless they are the same (`Hydration.OwnIdsAreKept`),
  and so is its failure, if the later one has no ids (`Resolver.LostIdsHideAFailure`). When each gets its own answer is
  `Hydration.TailsGetTheirOwnExactly`.
- More than 1000 matching children are cut, and then some parent misses rows unless none of the cut ones would be shown
  (`ChildRows.LimitIsExact`). A child preset that renames or hides the foreign key, or a payload that has a field of that name
  with another value and is unwrapped in the child call, moves a row to another parent (`ChildRows.BatchIsExact`).
- The child call of a `through` relation unwraps its rows only if the nested preset has tails of its own
  (`TailPresets.UnwrapsExactlyWithTails`), and the parent's finalisation unwraps again in any case. So a has_many through whose
  nested preset has tails ends with none of its records, unless it has none; a has_one loses a field named like the foreign key,
  and gives way to a nested record named like the relation. Without tails, a has_one whose first row carries no record shows
  the empty wrapper although later rows carry one (`Unwrapping.EndsRightExactly`), and a formatter on the relation is given
  the wrapper (`Unwrapping.FormattedTextsStay`).
- The registry check for `through` compares model names only, so a polymorphic relation passes it and join detection fails
  later (`Joins.PolymorphicLinkFails`); it succeeds if and only if a linked relation is there (`Joins.DetectionIsExact`).

## Model

| member | source | states |
|---|---|---|
| AliasExpansion.ExpandAliasPath | internal/model/alias_helpers.go:7-39 | the loop that rewrites the path it walks returns the fully expanded path: it arises by replacements, and nothing in it can be replaced |
| AliasExpansion.StepKeepsExpansion | internal/model/alias_helpers.go:17-28 | replacing one active alias, reached over relations, by its body, with the segments before and behind it kept, changes neither whether the rewriting ends nor where |
| AliasExpansion.ExpandIsTheOnlyEnd | internal/model/alias_helpers.go:13-39 | the rewriting ends if and only if such replacements lead to a path in which nothing can be replaced, and the expansion is the only one |
| AliasExpansion.ExpansionIsLighter | internal/model/alias_helpers.go:17-28 | replacing an alias leaves exactly one replacement less to do, although the path may grow |
| AliasExpansion.RankedAliasesSettle | internal/model/alias_helpers.go:13-36 | if a rank on aliases of models falls for every alias met while walking an alias body, the expansion of every path ends |
| AliasExpansion.SelfUsingAliasNeverSettles | internal/model/alias_helpers.go:17-28 | an alias that is met again while walking its own body, however indirectly, is rewritten for ever |
| AliasExpansion.UsesCanBeRanked | internal/model/alias_helpers.go:17-28 | without such an alias, the number of aliases each alias uses is such a rank |
| AliasExpansion.AliasesSettleExactly | internal/model/alias_helpers.go:13-36 | the expansion of every path ends if and only if no alias uses itself, that is if and only if the aliases can be ranked |
| AliasExpansion.ExpandFixesExactlyExpanded | internal/model/alias_helpers.go:31-36 | a path is left as it is if and only if no segment before the first non-relation is an active alias |
| AliasExpansion.ExpandIdempotent | internal/model/alias_helpers.go:5-39 | expanding an expanded path changes nothing |
| Normalization.NormalizeFilters | internal/model/alias_helpers.go:42-134 | for any order of the keys: the original tree unless an alias was expanded, else a tree with every entry under its new key |
| Normalization.NormalizeTree | internal/model/alias_helpers.go:48-105 | one object: `changed` is reported exactly when a field text changed at any depth |
| Normalization.NormalizeItems | internal/model/alias_helpers.go:63-82 | arrays under or/and: objects are rewritten in place, other items stay |
| Normalization.OutIsExpanded | internal/model/alias_helpers.go:92-103 | nothing in a rewritten tree can be expanded further |
| Normalization.NormalizationIsIdempotent | internal/model/alias_helpers.go:126-133 | normalising a normalised tree returns that very tree, whatever orders the keys came in |
| Normalization.ChangedExactly | internal/model/alias_helpers.go:84-105 | a tree is rewritten if and only if some field it mentions, at any depth, is not its own expansion |
| Normalization.OutMentionsExpanded | internal/model/alias_helpers.go:91-103 | the rewritten tree mentions exactly the expansions of the fields the original mentions, clash or not |
| Normalization.NormalizedFields | internal/model/alias_helpers.go:91-103 | whether or not anything changed, the fields a normalised tree mentions are exactly the expansions of the requested ones, and are expanded |
| KeyRenaming.OrderMattersUnlessAgreed | internal/model/alias_helpers.go:88-105 | rewriting keys has one result for all orders of the keys if and only if entries that land under one key hold equal values, at every depth |
| Normalization.ResultIsDeterminedExactly | internal/model/alias_helpers.go:42-134 | normalising has one result if and only if nothing is expanded or clashing entries agree |
| Normalization.OutMeans | internal/model/alias_helpers.go:42-134 | a rewritten tree builds and means, under every context, what the original does with fields read through aliases and empty operators dropped |
| Normalization.NormalizedMeaning | internal/model/alias_helpers.go:42-134 | so the compiled condition of the result is, for every three-valued assignment, that of the original with fields read through aliases and empty operators dropped |
| Normalization.NormalizationKeepsMeaning | internal/model/alias_helpers.go:42-134 | with no empty operator to drop and clashing entries in agreement it is the condition of the original itself |
| Normalization.NormalizationKeepsGroupsOnly | internal/model/alias_helpers.go:51-82 | the tree keeps the shape on which the WHERE/HAVING split is exact |
| Normalization.ClashLosesACondition | internal/model/alias_helpers.go:99-103 | with a clash both trees that keep only one of the two conditions are possible results |
| Normalization.EmptyOperatorBecomesEquality | internal/model/alias_helpers.go:99-102 | a key that ends in "__" asks for nothing until some other key is expanded; then it asks for equality |
| Filters.FilterPathsOfMentions | internal/model/BuildAliasMap.go:137-179 | the collected paths are the relation prefixes of the mentioned fields and nothing else |
| Filters.PathsFromFilters | internal/model/BuildAliasMap.go:137-179 | the walk over nested objects and arrays finds exactly those paths in any key order |
| Filters.PathsFromFields | internal/model/BuildAliasMap.go:183-199 | sort fields contribute exactly their relation prefixes |
| PathOrder.DottedInjective | internal/model/BuildAliasMap.go:215-222 | two paths of equal depth with the same dotted text are the same path |
| PathOrder.PathLessIsStrictTotal | internal/model/BuildAliasMap.go:215-222 | depth, then text, is a strict total order on paths |
| PathOrder.PathLessMeans | internal/model/BuildAliasMap.go:215-222 | shallower paths come first, and at one depth the one whose text is a beginning of the other or has the smaller first differing character |
| FiniteOrder.IncreasingIsUnique | internal/model/BuildAliasMap.go:210-223 | a set has only one increasing list, so sorting removes every trace of the map order |
| PathOrder.MergeAndSortPaths | internal/model/BuildAliasMap.go:201-224 | the one increasing list of all non-empty paths of the arguments |
| AliasMaps.NextIndexIsUnique | internal/model/BuildAliasMap.go:237-247 | the index after the largest tN in use is unique, so the map order does not matter |
| AliasMaps.AliasMap.DetectNextAliasIndex | internal/model/BuildAliasMap.go:237-247 | the loop over all aliases finds that index |
| AliasMaps.AliasMap.NextAlias | internal/model/BuildAliasMap.go:250-258 | the search for a free tN ends and finds the first one |
| AliasMaps.CountModelIn | internal/model/BuildAliasMap.go:226-234 | the number of occurrences of a model on the stack |
| AliasMaps.AliasMap.RegisterPath | internal/model/BuildAliasMap.go:106-122 | a new prefix gets the next free alias in both maps; a model met for the first time is always entered, another one exactly if the relation is reentrant and its depth leaves room; refused, nothing changes |
| AliasMaps.AliasMap.EnsureAliasPath | internal/model/BuildAliasMap.go:64-133 | the in-place walk with its alias rewriting has the state, next index and outcome of the recursive specification |
| AliasMaps.EnsureKeepsGood | internal/model/BuildAliasMap.go:64-133 | accepted or refused, a walk keeps the two maps inverse, prefix-closed and numbered, and changes no existing alias |
| AliasMaps.EnsureAcceptsExactly | internal/model/BuildAliasMap.go:64-133 | a walk accepts its path exactly if it crosses relations up to its end or a polymorphic one, and each new prefix enters a model that is new on the path, or over a reentrant relation within its depth |
| AliasMaps.EnsureCovers | internal/model/BuildAliasMap.go:73-131 | an accepted path has an alias for each of its joinable prefixes |
| AliasMaps.AcceptedIsJoinable | internal/model/BuildAliasMap.go:86-91 | only a polymorphic relation can cut an accepted path short |
| AliasMaps.BuiltExactly | internal/model/BuildAliasMap.go:21-58 | a request is accepted exactly if each of its extra paths is, read by itself against the preset's aliases, and then just the prefixes they travel are added; the order of the paths does not matter |
| AliasMaps.FreshPathIsAcceptable | internal/model/BuildAliasMap.go:104-116 | a path of relations that enters no model twice is never refused |
| AliasMaps.ExpandedIsTravelled | internal/model/BuildAliasMap.go:73-91 | what an expanded path travels is its joinable prefix |
| AliasMaps.ExtraPathsAre | internal/model/BuildAliasMap.go:42-49 | the extra paths are the relation prefixes of the fields that filters mention and of the sort fields, and the computable paths |
| AliasMaps.BuiltGuarantees | internal/model/BuildAliasMap.go:21-58 | every built map: mutually inverse, prefix-closed, unchanged preset aliases, all non-polymorphic prefixes of the requested paths |
| AliasMaps.BuildAliasMap | internal/model/BuildAliasMap.go:21-58 | the returned map is a function of the preset map and the set of extra paths; it is refused exactly if one of the paths is not acceptable |
| AliasMaps.EnsureAliasPaths | internal/model/BuildAliasMap.go:51-55 | the loop over the sorted paths, stopping at the first refusal with the map partly grown |
| Joins.JoinDetector.AddJoins | internal/model/DetectJoins.go:91-151 | one relation adds its one join, or the two of a `through`, to the shared map and to the list |
| Joins.JoinDetector.DetectField | internal/model/DetectJoins.go:57-170 | the recursive walk over shared state appends exactly what the specification says |
| Joins.JoinDetector.DetectJoins | internal/model/DetectJoins.go:13-39 | filter, sort and preset fields share one list and one map |
| Joins.DetectAllVisits | internal/model/DetectJoins.go:46-173 | with an alias for every prefix the list is one block of joins per visited relation path, parents first, and there is none if a block is missing; without one of the aliases detection fails |
| Joins.VisitedAllElements | internal/model/DetectJoins.go:84-169 | the visited paths are exactly the relation prefixes of the expanded requested paths |
| Joins.BlocksAreWellJoined | internal/model/DetectJoins.go:93-149 | such a list has distinct aliases, and every ON names its own alias and main or an earlier one |
| Joins.JoinListIsCorrect | internal/model/DetectJoins.go:46-173 | distinct aliases, every ON in scope, and the numbered aliases are exactly the images of all relation prefixes of the requested paths |
| Joins.DetectionIsExact | internal/model/DetectJoins.go:85-116 | detection succeeds if and only if every prefix has an alias and every `through` relation met has a linked relation behind it |
| Joins.LinkedRegistriesDetect | internal/model/DetectJoins.go:85-116 | so it never fails on covered paths when every `through` of the registry has its link |
| Joins.PolymorphicLinkFails | internal/model/DetectJoins.go:107-116 | a registry that passes the load-time check, whose only relation behind `through` is polymorphic: no alias map and no choice of aliases gives a join list |
| WhereSplit.BuildCond | internal/model/BuildWhereClause.go:73-205 | one key becomes a condition exactly if it asks something of a field that resolves, and it is true, or not false, where one (`_or_`) or all (`_and_`) of the fields' conditions are; it reports whether one is an aggregate |
| WhereSplit.BuildGroupExpr | internal/model/BuildWhereClause.go:207-277 | a group means the join of its entries in three-valued logic, in any key order, and reports aggregates exactly |
| WhereSplit.BuildGroupAnd | internal/model/BuildWhereClause.go:279-375 | WHERE parts hold no aggregate, every HAVING part holds one, and together they mean the conjunction of the entries |
| WhereSplit.BuildWhereClause | internal/model/BuildWhereClause.go:377-382 | for every three-valued assignment (WHERE and HAVING and the dropped conditions) equals the unsplit condition, which is the meaning of the tree, and nothing is dropped when or/and hold groups; WHERE has no aggregate, HAVING has one, and every atom comes from the filter |
| WhereSplit.FieldCondMeans | internal/model/BuildWhereClause.go:79-204 | what a composite key asks of each field: its expression, the operator without `_cs`, the case flag and the value, joined as the key says |
| WhereSplit.UnsplitMeans | internal/model/BuildWhereClause.go:207-277 | for every filter tree the condition is true, or not false, exactly where the tree says so: some of the entries that ask for anything under `or`, all of them otherwise |
| WhereSplit.UnsplitIsKeptAndDropped | internal/model/BuildWhereClause.go:279-375 | for every filter tree the unsplit condition is the conjunction of what the split keeps and of the dropped conditions |
| WhereSplit.SpineIsUnsplit | internal/model/BuildWhereClause.go:207-375 | the two compilations agree on every tree whose or/and keys hold groups |
| WhereSplit.SplitIsExact | internal/model/BuildWhereClause.go:279-382 | the split means the unsplit condition, for every three-valued assignment, if and only if its clauses are false whenever a dropped condition alone is false |
| WhereSplit.GroupsAreSplitExactly | internal/model/BuildWhereClause.go:279-382 | that is so when or/and keys hold groups, and only then unless a dropped condition is compiled from another key too |
| Rows.EveryAliasMatches | internal/model/BuildCountQuery.go:37-43 | after the LEFT JOINs every alias stands for a row of its table that satisfies the ON condition, or for the null row |
| Rows.JoinedStays | internal/model/BuildCountQuery.go:37-43 | later joins do not change what an earlier alias stands for |
| Rows.EveryAliasMatchesExactly | internal/model/BuildCountQuery.go:37-43 | and the null row only where no row of the table satisfies the ON condition |
| Rows.VisitedAliasReadsPath | internal/model/DetectJoins.go:93-149 | in every joined row the alias of a relation path holds a row of the table at its end, matched by the keys of its last relation with the row of the parent path, through the intermediate row if there is one; or the null row if none matches |
| CountQuery.ChooseCount | internal/model/BuildCountQuery.go:36-53 | the distinct count is chosen exactly when some join is marked distinct |
| CountQuery.CountStarIsRootCount | internal/model/BuildCountQuery.go:51-53 | COUNT(*) counts roots when every root row has exactly one joined row |
| CountQuery.DistinctIdsAreRoots | internal/model/BuildCountQuery.go:49-51 | COUNT(DISTINCT main.id) counts roots for any joins when ids are unique |
| CountQuery.GroupsAreRoots | internal/model/BuildCountQuery.go:66-110 | with HAVING, whatever it asks of a group: the number of groups by main.id that pass is the number of root rows whose joined rows satisfying WHERE pass together |
| CountQuery.CountIsExact | internal/model/BuildCountQuery.go:36-64 | the chosen count is, for every WHERE, the number of root rows with a joined row satisfying it if and only if a join is marked distinct or every root row has exactly one joined row |
| CountQuery.CountIsCorrect | internal/model/BuildCountQuery.go:36-64 | for the joins of a request: it is, if a join is distinct or every belongs_to relation met leads to one row at most |
| CountQuery.BelongsToThroughOvercounts | internal/model/DetectJoins.go:118-125 | join detection marks no join of a belongs_to through an intermediate table distinct, and the count over it is right if and only if no root row is referred to twice from that table |
| QueryPlan.BuiltCovers | internal/model/BuildAliasMap.go:42-55 | a built map, however grown since, covers the paths it was built for |
| QueryPlan.ServedMapIsPrepared | internal/model/CreateAliasMap.go:10-32 | and covers what the count query needs, in whatever order its keys are normalised again |
| QueryPlan.ServingMapIsPrepared | internal/model/CreateAliasMap.go:10-32 | so does any map that serves the request, whoever it was built for |
| QueryPlan.FilterColumnStandsForField | internal/model/field_expression_resolver.go:53-62 | every compiled column is `main` or the alias of a join in the list, and stands for exactly the relation path written in the filter |
| QueryPlan.CompiledCountsFilter | internal/model/BuildCountQuery.go:36-64 | a clause that means the filters makes the query count the root rows with a joined row on which the filters are true |
| QueryPlan.BuildCountQuery | internal/model/BuildCountQuery.go:9-64 | from the filters as written, aliases included: a plan exists if and only if the relations of the request are linked; then columns are in scope and read the written fields, every alias reads its path, WHERE and HAVING mean the written filters, and the count is the number of root rows with a joined row on which they are true, exactly when it can be; with HAVING, of root rows whose joined rows together satisfy it |
| PresetInheritance.MergeFields | internal/model/loader.go:257-273 | the loop over the index map computes the left-to-right merge |
| PresetInheritance.MergeKeepsFirstPlaceLastValue | internal/model/loader.go:256-273 | a merge holds each key once, at its first position, with its last value |
| PresetInheritance.MergeOfMerged | internal/model/loader.go:291-306 | merging an already merged parent is the same as merging its raw fields |
| PresetInheritance.MergeAppend | internal/model/loader.go:291-306 | merging two lists in turn is merging their concatenation |
| PresetInheritance.ParseParents | internal/model/loader.go:234-254 | the non-blank parent names, each once, in the order of their first mention |
| PresetInheritance.CollectParents | internal/model/loader.go:234-254 | the loop with `seen` collects them |
| PresetInheritance.RankExcludesMissingAndCyclic | internal/model/loader.go:280-286 | presets that can be ranked above their parents have no missing and no cyclic parent |
| PresetInheritance.Loader.Dfs | internal/model/loader.go:276-314 | the memoised search with cycle detection keeps every memo entry solved from earlier ones; it fails only if some chain of parents leads to a missing or repeated one |
| PresetInheritance.Loader.MergeAncestors | internal/model/loader.go:291-301 | the parents' results merged from left to right |
| PresetInheritance.Loader.ResolveAll | internal/model/loader.go:316-321 | for any order of the presets it fails exactly when a parent is missing or cyclic, and otherwise overwrites each preset with its merged lineage; each preset then holds its parents' results in the order of `extends` and its own fields, each key once, at its first place, with its last value |
| PresetInheritance.ResolvedInherits | internal/model/loader.go:285-306 | so own fields override those of the parents, and a parent's those of the parents before it |
| PresetInheritance.SolutionIsMergedLineage | internal/model/loader.go:276-314 | a map that satisfies the equation of each preset is the merge of its whole lineage |
| PresetInheritance.OrderOfVisitsDoesNotMatter | internal/model/loader.go:316-320 | any two successful runs give the same presets |
| PresetGraph.AcceptedExactly | internal/model/registry_validation.go:47-143 | a preset is accepted exactly if no way over nested presets, re-entering a model over reentrant relations up to the given depth, meets a faulty field; the examined paths are exactly those of the ways that end with a field that leads somewhere |
| PresetGraph.ValidatorStaysBounded | internal/model/registry_validation.go:106-148 | on every finite registry, cyclic or not, the walk ends and no path holds a model more often than the largest effective max_depth |
| PresetGraph.DescendKeepsBounded | internal/model/registry_validation.go:117-143 | a permitted descent keeps that bound and uses up room |
| PresetGraph.OutcomesAgree | internal/model/CreateAliasMap.go:109-139 | where the validator does not reject a field, counts and stack lead the collector to the same decision |
| PresetGraph.CollectsWhatWasExamined | internal/model/CreateAliasMap.go:104-157 | when the validator accepts, the collector finds exactly the relation paths it examined |
| PresetGraph.PathCollector.Dfs | internal/model/CreateAliasMap.go:107-147 | the recursive walk that fills a shared set adds exactly the specified paths |
| PresetGraph.CollectedIsClosed | internal/model/CreateAliasMap.go:119-124 | the collected paths are closed under prefixes |
| PresetGraph.NumberPaths | internal/model/CreateAliasMap.go:89-94 | the sorted paths get t0, t1, ... in both maps |
| PresetGraph.BuildPresetAliasMap | internal/model/CreateAliasMap.go:77-97 | an accepted preset gets an inverse, prefix-closed, numbered alias map for exactly its examined paths |
| PresetGraph.BuildPresetAliasMaps | internal/model/CreateAliasMap.go:76-97 | once the registry is accepted, every preset of a model gets such a map |
| ChildRows.ReadElsewhere | internal/resolver/resolver.go:601-622 | a write into a nested record changes no other place |
| ChildRows.UnwrapThrough | internal/resolver/resolver.go:627-642 | rows without a payload vanish, the others become their payload plus the foreign key |
| ChildRows.GroupRows | internal/resolver/resolver.go:252-257 | the grouping loop computes the specified groups |
| ChildRows.GroupedIsGrouping | internal/resolver/resolver.go:252-257 | each foreign key that occurs has exactly its rows, in query order, and no other key has a group |
| ChildRows.BatchEqualsOwn | internal/resolver/resolver.go:222-257 | below the limit, if rows are shown with their own foreign key, the regrouped batch holds for each parent what a query for it alone returns |
| ChildRows.BatchIsExact | internal/resolver/resolver.go:222-257 | below the limit it does so for all parents if and only if whatever the child call shows of a matching row carries the row's own foreign key |
| ChildRows.UnwrappingKeepsKey | internal/resolver/resolver.go:627-642 | unwrapping shows it so unless the payload has a field of that name with another value |
| ChildRows.LimitIsExact | internal/resolver/resolver.go:214-234 | unwrapped or not, every parent gets all its rows if and only if nothing beyond the first 1000 matches would be shown |
| ChildRows.ChangedKeyMovesRow | internal/resolver/resolver.go:253-257 | a row shown with another foreign key moves away from the parent whose own query shows it |
| Hydration.StepKeepsSound | internal/resolver/resolver.go:185-262 | one step of any goroutine keeps what is known of all of them, though `err` is shared |
| Hydration.EveryInterleaving | internal/resolver/resolver.go:173-274 | under every interleaving the call fails exactly when a tail fails on its own, and otherwise, if tails with one key have one answer, gathers exactly each tail's answer |
| Hydration.EveryStepProgresses | internal/resolver/resolver.go:185-262 | no goroutine waits for another, so every run can be completed |
| Hydration.AnyoneCanBeLast | internal/resolver/resolver.go:259-261 | each started tail is, in some interleaving, the last to store under its key |
| Hydration.SharedKeysRaceUnlessEqual | internal/resolver/resolver.go:259-261 | when no started tail fails, every interleaving gathers the answer to each one's query, and all interleavings agree, if and only if started tails with one key have equal answers |
| Hydration.OwnIdsAreKept | internal/resolver/resolver.go:167-180 | every tail queries with the ids it has collected if and only if tails with one key have collected the same; otherwise with those of the last of them |
| Hydration.TailsGetTheirOwnExactly | internal/resolver/resolver.go:150-263 | when no started tail fails, every interleaving gives each tail the answer to its own ids if and only if tails with one key agree on the answer to the ids of the last of them, and it is the answer to their own |
| Resolver.CollectIds | internal/resolver/resolver.go:150-168 | the loop with `seen` collects the specified ids |
| Resolver.IdsAreTheKeys | internal/resolver/resolver.go:150-168 | the ids are exactly the non-null parent keys, each once |
| Resolver.Stitch | internal/resolver/resolver.go:277-328 | the nested loops over items and tails attach the groups tail by tail |
| Resolver.AttachRows | internal/resolver/resolver.go:279-326 | one tail of one item: nil or [] without rows, the first row or all of them in order, each without the foreign key or formatted |
| Resolver.StitchedTail | internal/resolver/resolver.go:277-328 | with independent tails each place ends up with the rows of the parent key the untouched item holds |
| Resolver.RowsForParent | internal/resolver/resolver.go:288-295 | the group found for a parent is what its own query returns |
| Resolver.CollectJobs | internal/resolver/resolver.go:146-180 | the loops that store ids under the tail key and look them up there start each tail with the ids of the last tail of its key |
| Resolver.HydrateTails | internal/resolver/resolver.go:146-328 | under any complete interleaving it fails exactly when a started tail fails; otherwise only the tails' places change, and independent tails that get their own answers hold what one query per parent would give: for a plain relation each child row with the parent's key, in the order of the child table, or the first one |
| Resolver.HydratedIsServedPlainly | internal/resolver/resolver.go:277-328 | that reading of the attached values, position by position |
| Resolver.LostIdsHideAFailure | internal/resolver/resolver.go:167-183 | two tails with one key, of which only the first has ids and fails: its request is never sent |
| TailPresets.CollectedInOrder | internal/resolver/resolver.go:520-573 | the collected tails are those of exactly the has_ fields reached over belongs_to fields, each once and in the order of the fields, with the field's keys, limit, formatter and child, below the sources on the way |
| TailPresets.UnwrapsExactlyWithTails | internal/resolver/resolver.go:129-144 | the child call of a `through` relation unwraps its rows if and only if collecting the has_ or the polymorphic tails of the nested preset finds one; otherwise it has returned before |
| TailPresets.WellNamedPresetsAreIndependent | internal/resolver/resolver.go:520-573 | presets whose relation fields have distinct names, other than the parent keys, yield independent tails |
| TailPresets.WellNamedPresetsHaveDistinctKeys | internal/resolver/resolver.go:520-573 | and, with names free of dots, tails with distinct keys |
| Unwrapping.UnwrapTails | internal/resolver/finalizeItems.go:488-533 | the loops over fields and items settle every tail that came through an intermediate model at its own place |
| Unwrapping.SettledTail | internal/resolver/finalizeItems.go:500-535 | independent tails do not disturb each other there |
| Unwrapping.UnwrappingTwiceLoses | internal/resolver/finalizeItems.go:513-523 | looking for the record again in rows that are unwrapped already never gives them back |
| Unwrapping.UnwrappedListIsEmptied | internal/resolver/finalizeItems.go:513-523 | and leaves an empty list where no payload holds a record under the relation's name |
| Unwrapping.EndsRightExactly | internal/resolver/finalizeItems.go:488-533 | the exact condition, by has_one or has_many and by whether the child call has unwrapped, on which a parent ends up with the records its rows carry, or the first of them |
| Unwrapping.FormattedTextsStay | internal/resolver/resolver.go:305-320 | without unwrapping in the child call a formatter on the relation sees the rows still wrapped |
| TailPresets.HydratePreset | internal/resolver/resolver.go:129-435 | collecting the tails of a well-named preset, hydrating and unwrapping: under any complete interleaving every parent ends up with what its own queries would give it, plain relations with their child rows in order |
| Unwrapping.ServedEndsRightExactly | internal/resolver/finalizeItems.go:488-533 | and that is what the relation is for if and only if the condition holds of the parent's own rows |
| AliasCache.RunStaysWithinBudget | internal/model/alias_cache.go:46-116 | over every run, growth of stored maps included: the stored bytes are covered by the counter if and only if maps gained no more than get leaked, and the counter is exact if and only if the two are equal |
| AliasCache.UnmodifiedRunStaysWithinBudget | internal/model/alias_cache.go:46-116 | over every run on unmodified maps stored bytes never exceed the counter, which never exceeds a positive limit |
| AliasCache.RunAccounts | internal/model/alias_cache.go:46-116 | the counter runs ahead of the stored bytes by exactly the bytes leaked less the bytes gained |
| AliasCache.StoredExactlyIfItFits | internal/model/alias_cache.go:62-103 | a map is stored exactly if it fits, other keys untouched, and then hit exactly until it has been idle for longer than the time to live |
| AliasCache.HitRenews | internal/model/alias_cache.go:46-60 | a hit starts that time anew and touches no other entry |
| AliasCache.HitIsFresh | internal/model/alias_cache.go:46-60 | over every run, whatever get returns was asked for or stored within the time to live, and a sweep leaves nothing expired behind |
| AliasCache.GetLeaksExactlyBetweenSweeps | internal/model/alias_cache.go:54-57 | get drops bytes uncounted exactly when the entry expired and the sweep was skipped |
| AliasCache.GrowthBreaksTheBudget | internal/model/alias_cache.go:232-245 | a stored map that grows keeps the budget if and only if its new size is at most the old one plus what the counter is ahead by |
| AliasCache.AliasMapCache.Get | internal/model/alias_cache.go:46-60 | a hit returns the stored value and renews it; the new state is the specified one |
| AliasCache.AliasMapCache.Set | internal/model/alias_cache.go:62-103 | stores unless the limit forbids it, subtracting the present size of the value it replaces |
| AliasCache.AliasMapCache.MaybeSweep | internal/model/alias_cache.go:105-116 | the deleting loop removes exactly the expired entries and subtracts their present sizes |
| AliasCache.AliasMapCache.Grow | internal/model/alias_cache.go:232-245 | a value that grows weighs more under every key it is stored under, while the counter stays |
| AliasCache.AliasMapCache.SetMaxBytes | internal/model/alias_cache.go:40-44 | only the limit changes |
| AliasServer.ServedExactly | internal/model/CreateAliasMap.go:16-21 | a map built for one request, however grown, serves another with the same key if and only if it knows that one's preset: its aliases and the paths of its computable fields |
| AliasServer.SamePresetIsServed | internal/model/CreateAliasMap.go:16-21 | so it serves every request that brings the same preset |
| AliasServer.Server.CreateAliasMap | internal/model/CreateAliasMap.go:10-32 | a hit hands out a map built for a request with the same key, a miss one built for this request; nil only if building refuses it |
| AliasServer.Server.GrowInPlace | internal/model/aggregates.go:196-201 | growing a shared map, even up to a refusal, keeps it, and every other map handed out, what was built for its request |
| AliasServer.Server.CreateAliasMapForAggregates | internal/model/aggregates.go:191-203 | so does an aggregate request, whether its map was cached or new |
| AliasServer.Server.Run | internal/model/aggregates.go:191-203 | over every mix of both kinds of request with any presets, evictions included, each map serves each request it was handed to if and only if it knows that request's preset |
| AliasServer.ThroughAfterDirectExactly | internal/resolver/MakeThroughRequest.go:123-133 | the map of a direct request serves the through request with the same key if and only if t0 stands for the relation in it, which the preset tells if it has a t0 |
| AliasServer.DirectAfterThroughExactly | internal/resolver/MakeThroughRequest.go:123-133 | the map of the through request serves the direct one if and only if it knows its preset: not if the preset's t0 stands for another path, and surely if that t0 is all it has and stands for the relation |
| AliasServer.KeysAgreeExactly | internal/model/alias_cache.go:118-131 | two requests share a key if and only if they agree in model, filters and sorts and in the preset name, where blank names count as "custom" and no preset as "none" |
| AliasServer.PresetNamedNoneSharesAKey | internal/model/alias_cache.go:119-124 | a preset named "none" shares its key with no preset at all; its map serves such requests, and theirs serves it if and only if it knows it |
| CanonicalText.EscapedDecodes | internal/model/alias_cache.go:159-161 | a quoted string can be read back whatever follows it |
| CanonicalText.TextDecodes | internal/model/alias_cache.go:149-221 | a canonical text can be read back whatever delimiter follows it |
| CanonicalText.CanonicalTextIsInjective | internal/model/alias_cache.go:149-221 | two values have the same text if and only if they are the same JSON value |
| CanonicalText.EncodeCanonical | internal/model/alias_cache.go:149-221 | the encoder with its builder writes that text, whatever order the object keys came in |
| CanonicalText.EncodeMembers | internal/model/alias_cache.go:188-206 | object members in the order of their sorted keys |
| CanonicalText.MarshalString | internal/model/alias_cache.go:159-161 | quotes and escapes of a string |
| CanonicalText.KeyTextTellsTheRequest | internal/model/alias_cache.go:118-139 | equal texts before hashing mean equal model, preset name, filters and sorts |
| LogTail.SplitThenJoin | internal/router/logs.go:144-147 | splitting at newlines loses nothing |
| LogTail.ChunkExtendsLines | internal/router/logs.go:140-149 | prepending a chunk extends the first line and leaves the others |
| LogTail.EarlierMatchesComeLast | internal/router/logs.go:150-160 | scanning backwards finds the matches of later lines first |
| LogTail.ReversedTailIsLastN | internal/router/logs.go:132-170 | the first `limit` matches from the end, reversed, are the last `limit` matches in file order |
| LogTail.TailIsLastMatches | internal/router/logs.go:120-182 | these are at most `limit` entries of lines in ascending order, each decoded from its line without the blanks around it, and every matching line left out comes before all of them, with the limit reached |
| LogTail.ScanLinesBackwards | internal/router/logs.go:149-160 | the inner loop, stopping at the limit |
| LogTail.CollectBackwards | internal/router/logs.go:132-168 | for every chunk size of at least 1 the loops find the last matches, lines across chunks included |
| LogTail.ReverseEntries | internal/router/logs.go:252-256 | reverses an array in place |
| LogTail.ReadLogTail | internal/router/logs.go:120-171 | the last `limit` matching lines of the file, in file order |
| GraphQLImport.Parser.NextToken | internal/importer/graphqlimport/graphqlimport.go:450-494 | the scanning loops return the next token of the remaining text and stop behind it |
| GraphQLImport.Parser.SkipParenthesis | internal/importer/graphqlimport/graphqlimport.go:428-444 | skips to behind the matching parenthesis or to the end |
| GraphQLImport.Parser.ParseSelectionSet | internal/importer/graphqlimport/graphqlimport.go:380-398 | the loop parses what the recursive specification parses |
| GraphQLImport.Parser.ParseOneSelection | internal/importer/graphqlimport/graphqlimport.go:400-426 | name, alias, arguments and children |
| GraphQLImport.Parser.ParseOneOperation | internal/importer/graphqlimport/graphqlimport.go:347-378 | shorthand and named operations; fragments are refused |
| GraphQLImport.ParseText | internal/importer/graphqlimport/graphqlimport.go:333-345 | parsing ends on every text with the operations of the specification or an error |
| GraphQLImport.ParsesWhatWasPrinted | internal/importer/graphqlimport/graphqlimport.go:380-426 | parsing `{` signature `}` gives back the tree without aliases that repeat the name |
| GraphQLImport.SignatureIsInjective | internal/importer/graphqlimport/graphqlimport.go:520-533 | two selection trees have the same signature if and only if they differ only in such aliases |
| GraphQLGrammar.ParsesExactlyDocuments | internal/importer/graphqlimport/graphqlimport.go:333-444 | a text is parsed if and only if its tokens spell a document, with arguments from a parenthesis to the one that closes it, and then to the one document they spell |
| GraphQLGrammar.SkipIs | internal/importer/graphqlimport/graphqlimport.go:428-444 | skipping stops behind the closing parenthesis, or at the end if there is none |
| GraphQLGrammar.NameIsToken | internal/importer/graphqlimport/graphqlimport.go:483-490 | a name is one token as long as it goes on |
| GraphQLGrammar.SkippedComment | internal/importer/graphqlimport/graphqlimport.go:457-462 | a comment is skipped up to the end of its line |
| GraphQLGrammar.SkippedCharacter | internal/importer/graphqlimport/graphqlimport.go:453-456 | blanks, commas and characters that mean nothing add no token |
| GraphQLGrammar.PunctuationIsToken | internal/importer/graphqlimport/graphqlimport.go:466-482 | braces, parentheses and the colon are tokens by themselves |
| GraphQLGrammar.EllipsisEnds | internal/importer/graphqlimport/graphqlimport.go:463-465 | an ellipsis ends the text |
| Qualify.QualifyBareIdentifiers | internal/model/computable_utils.go:205-311 | the loop over index, quote flags and skip count computes the rewriting |
| Qualify.DecideIdent | internal/model/computable_utils.go:273-302 | keyword, skip count and neighbours decide in this order |
| Qualify.FindPrev | internal/model/computable_utils.go:321-331 | the last character before a position that is no blank |
| Qualify.FindNext | internal/model/computable_utils.go:333-343 | the first character from a position on that is no blank |
| Qualify.PiecesCover | internal/model/computable_utils.go:223-308 | the pieces of an expression are the whole expression |
| Qualify.OnlyInsertsAlias | internal/model/computable_utils.go:205-311 | the output is the input with "alias." before some non-keyword identifiers outside quotes, and nothing else changed |
| Qualify.QualifiesColumnsExactly | internal/model/computable_utils.go:205-311 | the alias is put exactly before the column names: identifiers outside quotes that are no keyword, are none of the two words behind a keyword like FROM, follow no dot, colon or double quote, and precede no dot or parenthesis |
| Qualify.IdentifiersAreWhole | internal/model/computable_utils.go:266-271 | identifiers are taken whole |
| Qualify.QualifyingIsIdempotent | internal/model/computable_utils.go:205-311 | rewriting twice is rewriting once, for every alias that is an identifier |
| FoldRows.FoldRow | internal/model/ScanFlatRows.go:93-136 | leaves, buckets and recursion, in any order of the keys, compute the fold |
| FoldRows.BucketIsShorter | internal/model/ScanFlatRows.go:105-123 | the longest key gets shorter, so the recursion ends |
| FoldRows.FoldedExactly | internal/model/ScanFlatRows.go:93-136 | what any row is folded to: a longer key hides the shorter ones, and a trailing dot is dropped but wins over the plain key |
| FoldRows.FoldThenFlatten | internal/model/ScanFlatRows.go:89-136 | folding and flattening give back the row if and only if no key ends in a dot or is a dotted prefix of another |
| FoldRows.GetNested | internal/resolver/finalizeItems.go:930-941 | the walk by dotted path |
| FoldRows.FoldedValueIsFound | internal/resolver/finalizeItems.go:930-941 | in the fold of such a row the walk finds each original value |

## Left out

- SQL text, placeholders and the real database: conditions, joins and rows are values; extra ON texts (`where`,
  `through_where`) are a given condition on joined rows.
- Computable fields and CTEs (internal/model/cte_helpers.go): their scoping holds only under side conditions on expression
  texts; the filter that skips joins for CTEs belongs to them.
- QueryPlan.BuildCountQuery: the truth of an aggregate condition on a group of joined rows is given, not computed from them.
  Requests are over plain columns; a field behind a polymorphic relation is outside.
- Joins.JoinListIsCorrect: says "any alias not in use" for the random three-letter aliases; that they could run out is not
  modelled, nor that a drawn alias might look like tN.
- Names are dot-free and trimmed, and segments are compared as text; parsing of keys with `__`, `_or_` and `_and_` is taken as
  done, so alias bodies hold none of these.
- PresetGraph.BuildPresetAliasMap: takes one preset; that the recursion with `visited` reaches every model adds nothing, since
  the caller visits every model of the registry anyway. A missing nested preset, which makes the collector crash, is a failure
  result that acceptance excludes.
- AliasServer.Server.Run: one request at a time; two goroutines that grow one Go map at once are not modelled. The paths of
  computable fields that filters and sorts use are a given function of the key, those of a preset come with it, and SHA-256 is
  left out: keys are compared before hashing.
- CanonicalText.CanonicalTextIsInjective: strings are sequences of Unicode characters; bytes that are no valid UTF-8, which
  json.Marshal replaces, and the rendering of numbers to text are outside.
- Hydration.EveryInterleaving: each step reads or writes shared variables atomically; which of several error messages wins is
  not modelled, nor is the crash of a goroutine on a missing nested preset name.
- Resolver.HydrateTails: child rows are given per tail, so the recursive call is a table with a filter, an order and the limit,
  followed by a given function that finishes each row. Rows attached to several parents are values here; the source shares one
  Go map between them. Formatters are a given function. Polymorphic tails (internal/resolver/resolver.go:330-430) do the same
  sequentially.
- Unwrapping.UnwrapTails: the other passes of finalizeItems over a parent (field aliases, empty containers, localisation,
  formatters, internal fields) are not modelled.
- TailPresets.WellNamedPresetsAreIndependent: needs an acyclic belongs_to preset graph; the source recurses for ever without one.
- LogTail.ReadLogTail: decoding and filtering of one line is a given partial function; file errors are left out.
- GraphQLImport.ParsesWhatWasPrinted: letters, digits and blanks are given character classes; error messages, argument contents
  and preset naming by hash are left out. The language is a subset of sections 2.1.9, 2.4, 2.5 and 2.7 of the October 2021
  GraphQL specification.
- Qualify.QualifyBareIdentifiers: blanks are the four that the neighbour search knows; the source's first test trims Unicode
  blanks, which makes no difference to the output.
- FoldRows.FoldThenFlatten: leaf values are opaque, so a column that already holds a nested object is a leaf.
- Sort normalisation, unique-value lists, pagination, localisation, formatters, importers other than the GraphQL parser, HTTP
  handling, configuration and token validation.
