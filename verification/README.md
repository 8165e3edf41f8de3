# Nautobot: filters, caches, validation and scoped state, verified

This project models the parts of Nautobot that hold real algorithms on top of the Django ORM, and proves what
they are for. `dafny verify dfyconfig.toml` checks everything.

The database is modelled by what the ORM's joins mean. A lookup path is a sequence of to-one and to-many
fields; one `.filter()` call compiles its lookups into shared LEFT OUTER JOINs, and a row of the queryset comes
back once for every joined row that passes (`Joins.JoinRows`, `Querysets.FilterRows`); `.exclude()` is a `NOT IN`
subquery, with one subquery for each key where a value is looked up by several keys across a to-many relation (as
Django documents it under "Spanning multi-valued relationships"). Against that stands plain navigation along one
path at a time (`Joins.Arrivals`, `Querysets.Selects`), and the two are proved to agree on every database.
Everything said about the filters is said on top of that.

| module | models |
|---|---|
| `Joins`, `Querysets` | outer joins, shared prefixes, `filter`, `exclude`, `distinct` |
| `Filters` | `field_path_traverses_to_many`, `AutoDistinctFilterMixin`, the multiple-choice filters, `SearchFilter` |
| `BooleanFilters` | `BooleanFilter`, `RelatedMembershipBooleanFilter` |
| `LookupFilters` | the generated `name__ic`, `name__nic`, `name__n` filters |
| `ModularComponents`, `ModuleBays` | the recursive device filters, `available_for_cable`, `has_empty_module_bays` |
| `Forests`, `TreeFilters` | parent-pointer forests, `TreeNodeMultipleChoiceFilter` |
| `MaxDepthCache`, `TreeManagers` | the cached tree depth and its sibling shortcut, as functions and as the class that runs |
| `CacheKeys`, `RuleCache`, `RuleManagers` | the validation-rule caches: keys as strings, wildcard deletion, runs over branches, the class that runs |
| `Compliance`, `ComplianceRules` | `DataComplianceRule.clean()` as a function on the table, and the classes that run |
| `Permissions`, `PermissionBackend` | the permission map and `has_perm` |
| `ComponentSuppression`, `Branching` | the two context managers, with interleaved tasks and nesting |
| `Templating` | the bounded walk that refuses caller-supplied SQL |
| `NavMenu` | the triple loop of `nav_menu` |
| `UnusedNames` | the factories' search for an unused model name |
| `Uniqueness` | the unique rules and `DeviceUniquenessValidator` as transition systems |

A class or method with loops is proved against a function of its inputs or of its old state; what the original
promises is then proved of that function by lemmas, over all inputs and all runs.

## Where the code and its documentation disagree

The model follows the code. Each of these is an if-and-only-if below, with a concrete input for the failing side.

- `isnull=True` is said to be unable to return duplicates (`nautobot/core/filters.py:217-219`). It is so for exactly
  the paths whose steps behind the first to-many relation are all required and to-one
  (`BooleanFilters.NullNeverRepeatsExactly`, `BooleanFilters.UnsafePathRepeats`). A to-many relation followed by a nullable one can repeat a row, in both
  boolean filters.
- The derived `distinct` looks at the field path only, not at the natural key that a name is looked up by; a to-many
  natural key behind a to-one field is missed (`Filters.NaturalKeyDistinctExactly`, `Filters.UnsafeKeyRepeats`).
- `has_empty_module_bays` joins a to-many relation and never calls `.distinct()`: it returns a row once per empty bay
  (`ModuleBays.WithEmptyBaysRepeatsExactly`, `ModuleBays.TwoEmptyBaysRepeat`).
- An `n` filter is meant to be the complement of its twin, or of the filter it was made from. It is not when the base
  filter excludes and the new filters are built from the model field (a filter added by `add_filter()`), where both
  twins exclude; nor when the filter that does not exclude is conjoined (tags); nor for values that both reject; nor for
  content types across a to-many relation, where excluding does not ask that one content type has both the app label and
  the model name (`LookupFilters.NegationExactly`, `LookupFilters.PlainNegationExactly`, `LookupFilters.RoleInNeither`).
- "TreeNode has siblings, depth can't change" (`nautobot/core/signals.py:83`) holds for every creation, deletion
  and save in place, but not for moves (`MaxDepthCache.MoveConsistentExactly`, `MaxDepthCache.MoveCanLeaveStaleDepth`).
- The limit of 4 is described as covering four nested modules (`nautobot/dcim/constants.py:278-279`); the component
  filter sees three, the module filter sees four (`ModularComponents.FourthModuleIsNotSeen`).
- After a compliance run the stored verdicts tell the audit's errors exactly when every real attribute in the error
  dictionary has a message and comes before any unreadable name that has one; otherwise a failed attribute can be
  marked valid (`Compliance.TellsErrorsExactly`, `Compliance.UnknownNameHidesError`). A stored attribute that the object
  no longer has ends the run with an `AttributeError` before `__all__` is stored: an object can go on counting as valid
  beside a failed attribute (`Compliance.RunKeepsSoundExactly`, `Compliance.LostAttributeBreaksSound`).
- A permission whose constraints are an empty list grants every object until another permission adds a real
  constraint: adding a permission can take access away (`Permissions.OnlyGainsExactly`).
- `SkipAutoComponentCreation` nests, but one object entered again inside its own block leaves the task suppressed
  (`ComponentSuppression.RestoredExactly`), and one object shared by two tasks leaks or raises
  (`ComponentSuppression.SharedRestoredExactly`); an alias listed twice loses its original branch (`Branching.RestoredExactly`).

## Model

| member | source | states |
|---|---|---|
| Joins.JoinRowsMembers | nautobot/core/filters.py:524-532 | the rows of the joined tables are exactly the ways of following every join at once from the root row |
| Joins.JoinIsSound | nautobot/core/filters.py:524-532 | whatever a joined row holds in a column is found by navigating that column's lookup path |
| Joins.JoinIsComplete | nautobot/core/filters.py:524-532 | whatever navigation finds at the end of a lookup path is in some joined row: outer joins for other lookups lose nothing |
| Joins.AddPathLeads | nautobot/core/filters.py:498-499 | a lookup that reuses the joins of an earlier one with the same prefix still reads the table its own path leads to |
| Joins.AddPathToOne | nautobot/core/filters.py:95-95 | the joins added for a path are all to-one exactly if they were and the path crosses no to-many relation |
| Joins.ToOneJoinsOnce | nautobot/core/filters.py:102-104 | to-one joins of any number and length yield exactly one joined row per root row |
| Joins.SideBySideJoinsMultiply | nautobot/core/filters.py:504-509 | relations joined side by side repeat a root row as often as the product of their fan-outs |
| Querysets.FilterRepeatsAtMost | nautobot/core/filters.py:102-104 | `filter` on a duplicate-free queryset is duplicate-free exactly if every row matches at most one joined row |
| Querysets.FilterRowsCount | nautobot/core/filters.py:102-104 | `filter` returns a row as often as it has matching joined rows, times its own copies in the queryset |
| Querysets.MatchCountAdds | nautobot/core/filters.py:102-104 | matches are counted row by row |
| Querysets.CopiesMeanSelected | nautobot/core/filters.py:498-502 | a row matches the query over the shared joins exactly if one of its lookups, followed alone, holds |
| Querysets.ApplySelects | nautobot/core/filters.py:524-532 | as a set, `filter`/`exclude` of an OR of lookups is the comprehension over the queryset, or its complement; an empty Q adds no condition |
| Querysets.FilterAndExcludePartition | nautobot/core/filters.py:945-949 | `filter` and `exclude` with the same query split every queryset in two |
| Querysets.ApplyKeepsNoDuplicates | nautobot/core/filters.py:125-131 | `exclude`, and `filter` along to-one paths, keep a queryset duplicate-free on every conforming database |
| Querysets.CrowdedFilterRepeats | nautobot/core/filters.py:504-509 | a filter that crosses a to-many relation, and accepts all joined rows of one conforming database, repeats a row of it |
| Querysets.DistinctNeededExactly | nautobot/core/filters.py:121-131 | `.distinct()` can be skipped for all databases, querysets and tests if and only if the filter excludes or crosses no to-many relation |
| Filters.FilterChoiceExact | nautobot/core/filters.py:98-131 | a choice filter whose `distinct` is derived, or on, returns every selected (or, excluding, every unselected) row exactly once, and the queryset itself for no values |
| Filters.DistinctCalledExactly | nautobot/core/filters.py:121-131 | where it is derived, `.distinct()` is called if and only if the filter could otherwise repeat a row of some database |
| Filters.DistinctAsTold | nautobot/core/filters.py:121-131 | where it is explicit or the path does not resolve, it is what the filter was told or its class has |
| Filters.KeyFilterExact | nautobot/core/filters.py:640-676 | the natural-key filter returns, exactly once, the rows from which null, the key or the natural key of some given value is found (or all others) |
| Filters.NaturalKeyDistinctExactly | nautobot/core/filters.py:640-676 | for the lookups that values send (null, key, natural key), the derived `distinct` suffices on every database if and only if the natural key is not the only to-many part of the path |
| Filters.UnsafeKeyRepeats | nautobot/core/filters.py:640-676 | one natural key, looked up behind such a path in one database, returns a row twice |
| Filters.GenerateQuery | nautobot/core/filters.py:461-502 | the loop over the predicates builds the OR of the predicates that accept the value, each with its prepared value |
| Filters.SearchLeavesMean | nautobot/core/filters.py:461-502 | that OR selects a row exactly if some predicate of the map applies and finds a match; it is empty exactly if every preprocessor refuses |
| Filters.SearchFilterSelects | nautobot/core/filters.py:524-532 | the search filter selects exactly the rows that some predicate finds (all others if it excludes, everything if nothing is searched for or no predicate applies) |
| Filters.SearchFilterNeverRepeats | nautobot/core/filters.py:504-519 | the search filter's derived `distinct` leaves no duplicates, for any predicate map and database |
| Filters.SearchFilterExact | nautobot/core/filters.py:504-532 | both together: every matching row of a duplicate-free queryset exactly once, however the joins multiply; the queryset itself for an empty value |
| Filters.SearchDistinctExactly | nautobot/core/filters.py:504-518 | where it is derived, `.distinct()` is called if and only if a predicate does not resolve, or filtering along the predicates' paths could repeat a row |
| Filters.SearchDistinctAsTold | nautobot/core/filters.py:512-513 | where it is explicit, or no model is known, it is what the filter was told |
| Filters.PreparedExactly | nautobot/core/filters.py:474-496 | `icontains` keeps white space, every other lookup strips it, and a preprocessor replaces the stripping |
| Filters.StripCuts | nautobot/core/filters.py:478-478 | stripping takes away the white space at both ends, all of it and nothing else |
| Filters.IsSpaceExactly | nautobot/core/filters.py:478-478 | what counts as white space, character by character |
| BooleanFilters.SafeChainEnds | nautobot/core/filters.py:217-219 | on the safe paths, an outer join that ends in NULL has one row |
| BooleanFilters.NullNeverRepeatsExactly | nautobot/core/filters.py:217-219 | `isnull=True` without `.distinct()` never repeats a row, whatever the database, if and only if every step behind the first to-many one is required and to-one |
| BooleanFilters.UnsafePathRepeats | nautobot/core/filters.py:217-219 | on every other path, one database in which `isnull=True` returns a row twice |
| BooleanFilters.FilterBooleanSelects | nautobot/core/filters.py:222-228 | the boolean filter selects the rows where some cell at the end of the path is missing as asked or passes the lookup (or the others, if it excludes), and everything for no value |
| BooleanFilters.BooleanNeverRepeatsExactly | nautobot/core/filters.py:222-228 | with derived `distinct`, the boolean filter never repeats a row if and only if it excludes, or is no `isnull` lookup, or its path is safe |
| BooleanFilters.MembershipTable | nautobot/core/filters.py:256-298 | the four rows of the documented table; for either `exclude`, the answers True and False partition the queryset |
| BooleanFilters.MembershipNeverRepeatsExactly | nautobot/core/filters.py:284-298 | the membership filter never repeats a row if and only if `exclude=False` or its path is safe |
| LookupFilters.GenerateLookupExpressionFilters | nautobot/core/filters.py:908-1026 | for every entry of the lookup map in force, the dictionary has a filter under `name__lookup` if and only if the field supports the expression; its class, path, expression, `conjoined` and `exclude` are said one by one, `exclude` being turned around for exactly the seven negations; there is no other key |
| LookupFilters.AugmentedExactly | nautobot/core/filters.py:908-935 | which filters get lookups beside them, and which of these get `isnull` |
| LookupFilters.TextLookupsExactly | nautobot/core/constants.py:13-27 | a text filter has six lookups, each with its negation, and the plain negation |
| LookupFilters.NegationHasTwin | nautobot/core/constants.py:13-37 | in every lookup map, a negation but for the plain one stands beside the lookup that it negates, with the same expression |
| LookupFilters.OneKeyExcludes | nautobot/core/filters.py:945-949 | where every value has one key, excluding value by value and excluding the OR of all values at once are the same |
| LookupFilters.TogetherMeans | nautobot/core/filters.py:317-388 | filtering by a value asks for one cell at the end of the path that has all its keys |
| LookupFilters.ApartMeans | nautobot/core/filters.py:317-388 | excluding by a value asks for each key alone whether some cell has it |
| LookupFilters.RunSelects | nautobot/core/filters.py:317-388 | what a filter selects: rows that some value matches, or all values one call after the other if it is conjoined, or none of the values if it excludes; all keys of a value in one related row when it filters, each key in any related row when it excludes |
| LookupFilters.DistinctLookupNames | nautobot/core/constants.py:13-37 | no lookup map, with `isnull` added, names a lookup twice, so no generated filter overwrites another |
| LookupFilters.ComplementaryExactly | nautobot/core/filters.py:945-949 | two filters that look up the same are complements, on every conforming database and for all values, if and only if exactly one of them excludes, the other one is not conjoined, their class rejects no values, and it does not look up two keys across a to-many relation |
| LookupFilters.NegationExactly | nautobot/core/filters.py:937-1026 | an `n` filter is the complement of its twin if and only if the base filter does not exclude, or the twin inherits its `exclude` (choices, or declared), and the class of the two is neither tags nor content types |
| LookupFilters.PlainNegationExactly | nautobot/core/filters.py:945-1015 | `name__n`, where it looks up in the same way, is the complement of the filter it was made from, also when that one excludes, if and only if no value is rejected, the one of the two that does not exclude is not conjoined, and no value has two keys across a to-many relation |
| LookupFilters.SingleValueNegationExactly | nautobot/core/filters.py:945-949 | for a single value that is not rejected it is the complement of any filter, conjoined or not, if and only if no value has two keys across a to-many relation |
| LookupFilters.RoleInNeither | nautobot/core/filters.py:381-388 | a role for two content types, of which one has the wanted app label and the other the wanted model name, is in neither `content_types` nor `content_types__n` |
| LookupFilters.PartlyTaggedInNeither | nautobot/core/filters.py:688-703 | asked for two tags, neither `tags` nor `tags__n` returns an object that has one of them |
| LookupFilters.AddedExcludingFilterLosesNegation | nautobot/core/filters.py:1018-1048 | for an excluding filter added with `add_filter()`, the `ic` and `nic` filters are the same |
| ModularComponents.ConstructDeviceFilterRecursively | nautobot/dcim/filter_mixins.py:140-146 | the loop builds one lookup for the component's own device and one per nesting level up to the limit less one |
| ModularComponents.LookupReadsDeviceAt | nautobot/dcim/filter_mixins.py:140-146 | the k-th lookup path arrives exactly at the column of the device that is k modules up, or at NULL |
| ModularComponents.DeviceQueryExact | nautobot/dcim/filter_mixins.py:140-156 | for any limit L, the query selects a component exactly if a device that was asked for, by name or id, is at most L-1 modules up |
| ModularComponents.FilterDeviceExact | nautobot/dcim/filter_mixins.py:158-162 | `filter_device` returns exactly those components, each once, without any `.distinct()`, and all of them if nothing is asked for |
| ModularComponents.DeviceIsUnique | nautobot/dcim/filter_mixins.py:140-146 | with one parent per bay and component, a component is in one device at one depth |
| ModularComponents.SeesOwnerExactly | nautobot/dcim/constants.py:278-279 | the bounded query agrees with unbounded ownership, whatever is asked for, if and only if the component is nested in fewer than L modules |
| ModularComponents.ThirdModuleIsSeen | nautobot/dcim/constants.py:278-279 | with the limit of 4, a component in up to three nested modules is found under its device |
| ModularComponents.ModuleQuerySelects | nautobot/dcim/filters.py:2372-2378 | the module filter selects a module exactly if its components have a device that was asked for 1 to L modules up |
| ModularComponents.ModuleFoundWithoutItsComponents | nautobot/dcim/filters.py:2372-2378 | at nesting depth L the module filter finds a module whose components the component filter does not find |
| ModularComponents.FourthModuleIsNotSeen | nautobot/dcim/constants.py:278-279 | with the limit of 4, a component in the fourth of the documented nested modules is not found under its device |
| ModularComponents.AvailableForCableExact | nautobot/dcim/filter_mixins.py:64-75 | exactly the terminations without a cable or on one of the given cables (all, if none is given), each once, without `.distinct()` |
| ModuleBays.CopiesOfEmpty | nautobot/dcim/filter_mixins.py:274-279 | `has_empty_module_bays=True` returns a row once for each of its empty bays |
| ModuleBays.CopiesOfNonEmpty | nautobot/dcim/filter_mixins.py:274-279 | `has_empty_module_bays=False` returns a row once per bay, or once if it has none, and never one with an empty bay |
| ModuleBays.HasEmptyModuleBaysSelects | nautobot/dcim/filter_mixins.py:274-285 | as sets, the two answers are the rows with and the rows without an empty bay |
| ModuleBays.WithEmptyBaysRepeatsExactly | nautobot/dcim/filter_mixins.py:281-285 | the answer True is duplicate-free if and only if no row has two empty bays |
| ModuleBays.WithoutEmptyBaysRepeatsExactly | nautobot/dcim/filter_mixins.py:281-285 | the answer False is duplicate-free if and only if no row has two bays, all occupied |
| ModuleBays.TwoEmptyBaysRepeat | nautobot/dcim/filter_mixins.py:281-285 | a device with two empty bays is returned twice |
| ModuleBays.TwoOccupiedBaysRepeat | nautobot/dcim/filter_mixins.py:281-285 | a device with two occupied bays is returned twice for the answer False |
| Forests.DepthUnique | nautobot/core/models/tree_queries.py:51-70 | a node of a forest has one depth, however it is computed |
| Forests.UnderTransitive | nautobot/core/models/tree_queries.py:126-145 | descent is transitive |
| Forests.AddLeaf | nautobot/core/signals.py:75-84 | adding a leaf keeps the forest and every other depth |
| Forests.RemoveSubtree | nautobot/core/signals.py:75-84 | removing a node with its descendants keeps the forest and every other depth |
| Forests.MoveSubtree | nautobot/core/signals.py:75-84 | moving a subtree keeps the forest, shifts every depth below the moved node by the same amount and no other |
| MaxDepthCache.CreateKeepsConsistent | nautobot/core/signals.py:75-87 | creating a node leaves the cached depth absent or true, although the cache is kept when there are siblings |
| MaxDepthCache.SkipsExactly | nautobot/core/signals.py:78-84 | the cache is kept if and only if two different nodes hang under the parent |
| MaxDepthCache.SaveKeepsConsistent | nautobot/core/signals.py:75-87 | so does saving a node in place |
| MaxDepthCache.OrphansInvalidate | nautobot/core/signals.py:78-84 | the signal of a deleted descendant never skips: only that of the subtree's root can |
| MaxDepthCache.DeleteKeepsConsistent | nautobot/core/signals.py:75-87 | deleting a node with its descendants leaves the cached depth absent or true |
| MaxDepthCache.ReadIsTrue | nautobot/core/models/tree_queries.py:101-113 | a read of a consistent state answers, and caches, the true depth |
| MaxDepthCache.RunConsistentExactly | nautobot/core/signals.py:64-87 | over every run of creations, saves, moves, deletions, reads and evictions, the cache stays absent or true if and only if no move leaves a false cache |
| MaxDepthCache.EveryReadIsTrue | nautobot/core/signals.py:64-87 | in such a run, a read before the first move that leaves a false cache tells the true depth |
| MaxDepthCache.EveryReadIsTrueWithoutMoves | nautobot/core/signals.py:64-87 | in a run without moves every read tells the true depth, without any condition |
| MaxDepthCache.MaxDepthAfterMove | nautobot/core/signals.py:83-84 | a move keeps the depth of the forest if and only if it keeps the level, or the moved subtree reaches below the rest neither before nor after |
| MaxDepthCache.MoveConsistentExactly | nautobot/core/signals.py:75-87 | a move leaves a true cache if and only if the cache is cleared or the move keeps the depth |
| MaxDepthCache.SaveIsTrue | nautobot/core/signals.py:75-87 | for every save, new, in place or moving: the complete list of cases in which the cache stays true |
| MaxDepthCache.MoveCanLeaveStaleDepth | nautobot/core/signals.py:83-84 | moving a leaf up beside its parent leaves 2 in the cache of a tree of depth 1 |
| TreeManagers.TreeManager.InvalidateMaxDepthCache | nautobot/core/signals.py:64-87 | the handler deletes the cache entry unless the parent is stored and has more than one child, and changes nothing else |
| TreeManagers.TreeManager.Save | nautobot/core/models/tree_queries.py:178-181 | save followed by its signal: the node is stored under the parent and nothing else changes; the cache stays true in exactly the cases of `CacheStaysTrue` |
| TreeManagers.TreeManager.CollectSubtree | nautobot/core/models/tree_queries.py:178-181 | walking up from every node collects exactly the deleted node's descendants |
| TreeManagers.TreeManager.SignalDeleted | nautobot/core/models/tree_queries.py:178-181 | one signal per deleted row, in any order: the cache survives only if all of them skip |
| TreeManagers.TreeManager.Delete | nautobot/core/models/tree_queries.py:178-181 | exactly the node and its descendants are taken out, followed by their signals; the cache stays absent or true |
| TreeManagers.TreeManager.DepthOf | nautobot/core/models/tree_queries.py:51-70 | counting the steps to the root gives the depth |
| TreeManagers.TreeManager.MaxTreeDepth | nautobot/core/models/tree_queries.py:51-70 | the query answers the greatest depth, and 0 for an empty table |
| TreeManagers.TreeManager.ReadMaxDepth | nautobot/core/models/tree_queries.py:101-113 | `max_depth` answers the true depth, from the cache or from the query, which it then caches |
| TreeFilters.Flatten | nautobot/core/filters.py:731-739 | the flattened list holds exactly the expansions of the chosen values |
| TreeFilters.GenerateQuery | nautobot/core/filters.py:727-757 | the loops build one lookup per descendant-or-self of a chosen node, and an `isnull` lookup for the null choice |
| TreeFilters.LeavesSelect | nautobot/core/filters.py:727-757 | the query selects a row exactly if its path arrives at a node at or below a chosen one, or at nothing if null was chosen |
| TreeFilters.FilterTreeExact | nautobot/core/filters.py:759-768 | the filter returns exactly these rows (or exactly the others, excluding), each once, and all rows if nothing, or nothing that still exists, is chosen |
| TreeFilters.ChoicesUnite | nautobot/core/filters.py:752-757 | choosing the values of two lists selects the union of what each selects |
| TreeFilters.AncestorsSelectMore | nautobot/core/filters.py:731-735 | choosing an ancestor instead loses no row |
| TreeFilters.DescendantsAddNothing | nautobot/core/filters.py:731-735 | choosing a descendant of a chosen node in addition changes nothing |
| CacheKeys.GlobPrefix | nautobot/data_validation/signals.py:30-30 | the pattern `prefix(*)` matches exactly the strings that begin with `prefix(` and end with a later `)`, if the prefix has no pattern characters |
| CacheKeys.PatternCoversKeys | nautobot/data_validation/signals.py:25-30 | a manager's pattern matches its key for every content type, also one that a rule was moved away from, on branches without pattern characters in their names |
| CacheKeys.GlobUnits | nautobot/data_validation/signals.py:30-30 | what the pattern characters match by themselves |
| CacheKeys.GlobCorners | nautobot/data_validation/signals.py:30-30 | ranges, characters taken literally, and patterns that break off |
| CacheKeys.LiteralBranchExactly | nautobot/core/utils/cache.py:124-127 | the branch names that a pattern takes literally are those without the four pattern characters |
| CacheKeys.DocumentedKey | nautobot/core/utils/cache.py:87-100 | a key in full, as documented, with a branch name in it |
| CacheKeys.PrefixesDiffer | nautobot/data_validation/models.py:46-65 | the key prefixes of different models, methods and branches differ, for any branch names |
| CacheKeys.KeysDiffer | nautobot/core/utils/cache.py:124-137 | no two combinations of model, method, branch and content type share a cache key, also on branches with parentheses in their names, as content types have none |
| CacheKeys.ParenthesesCollide | nautobot/core/utils/cache.py:124-137 | with parentheses in both, the keys of two branches can be the same |
| RuleCache.InvalidationForgets | nautobot/data_validation/signals.py:16-30 | after the signal no answer of the model's two methods on the active branch is cached |
| RuleCache.InvalidationDeletesExactly | nautobot/data_validation/signals.py:24-30 | the signal deletes the keys of the two methods on the active branch, and no other key |
| RuleCache.InvalidationSparesOthers | nautobot/data_validation/signals.py:24-30 | answers about other rule models stay cached |
| RuleCache.FreshExactly | nautobot/data_validation/models.py:41-58 | the queries answer the rules stored for the content type, all of them or the enabled ones |
| RuleCache.EnabledAreAmongAll | nautobot/data_validation/models.py:35-61 | the answer of the second method is the enabled part of the answer of the first |
| RuleCache.DisabledRuleAnswers | nautobot/data_validation/models.py:35-61 | a rule saved as disabled is answered by the first method and not by the second |
| RuleCache.ChangeKeepsConsistent | nautobot/data_validation/signals.py:16-30 | any change of a rule table followed by the signal leaves every cached answer fresh, on every branch |
| RuleCache.ReadIsFresh | nautobot/data_validation/models.py:35-61 | a read answers what the query answers and leaves every cached answer fresh |
| RuleCache.StepKeepsConsistent | nautobot/data_validation/models.py:35-65 | so does every save, delete, read, eviction, foreign cache entry and change of branch |
| RuleCache.CachedAnswersArePlain | nautobot/data_validation/models.py:35-65 | over every run, each answer equals that of the same run on tables alone, without a cache |
| RuleManagers.RuleStore.GetForModel | nautobot/data_validation/models.py:35-44 | the answer has a rule if and only if the active branch stores it for the content type, cached or not; what is not a content type raises |
| RuleManagers.RuleStore.GetEnabledForModel | nautobot/data_validation/models.py:50-61 | the answer has a rule if and only if the active branch stores it for the content type and it is enabled, cached or not; what is not a content type raises |
| RuleManagers.RuleStore.InvalidateValidationRuleCaches | nautobot/data_validation/signals.py:16-30 | the loop deletes the entries of both patterns and no other |
| RuleManagers.RuleStore.SaveRule | nautobot/data_validation/signals.py:16-30 | a save stores the rule on the active branch and nothing else, and its signal keeps every cached answer fresh |
| RuleManagers.RuleStore.DeleteRule | nautobot/data_validation/signals.py:16-30 | a delete takes the rule from the active branch and nothing else, and its signal keeps every cached answer fresh |
| Compliance.LookupAfterUpsert | nautobot/data_validation/custom_validators.py:326-338 | `update_or_create` stores the verdict under its four columns and leaves every other row |
| Compliance.UpsertKeepsOneRowEach | nautobot/data_validation/custom_validators.py:326-338 | it keeps one row per class, type, object and attribute |
| Compliance.AllMessagesInOrder | nautobot/data_validation/custom_validators.py:301-303 | the messages of the whole dictionary are those of its entries, in order |
| Compliance.ExcludesExactly | nautobot/data_validation/custom_validators.py:293-300 | excluded are the names of the dictionary up to and including the first that cannot be read and has a message |
| Compliance.BreaksExactly | nautobot/data_validation/custom_validators.py:263-283 | a run ends in an `AttributeError` if and only if an attribute is stored that the object no longer has and the audit's errors do not name |
| Compliance.RunKeepsTidy | nautobot/data_validation/custom_validators.py:263-339 | every run, broken or not, keeps one row per class, type, object and attribute, each with an attribute name |
| Compliance.RunLeaves | nautobot/data_validation/custom_validators.py:285-311 | for every row: what a run leaves in it, from the row before and the outcome, also when marking stops at an attribute that is gone |
| Compliance.OthersUntouched | nautobot/data_validation/custom_validators.py:263-338 | a run leaves every row of other classes and objects as it was |
| Compliance.RunKeepsReadable | nautobot/data_validation/custom_validators.py:318-325 | a run stores readable attributes only, so a later run can mark them as long as the object has them |
| Compliance.ReachingTellsExactly | nautobot/data_validation/custom_validators.py:285-311 | on any table, for a dictionary that reaches all errors: exactly the errored attributes are invalid afterwards if and only if every old error that the audit no longer finds is marked before the run breaks |
| Compliance.TellsErrorsExactly | nautobot/data_validation/custom_validators.py:285-311 | on all tables whose attributes can still be read, exactly the errored attributes are invalid afterwards if and only if the error dictionary reaches all of them |
| Compliance.UnknownNameHidesError | nautobot/data_validation/custom_validators.py:292-303 | an unknown name in front of a real one: the attribute that failed is marked valid |
| Compliance.LostAttributeKeepsError | nautobot/data_validation/custom_validators.py:273-289 | an attribute that is gone, stored in front of another one: a passing audit leaves that one invalid |
| Compliance.RunKeepsSoundExactly | nautobot/data_validation/custom_validators.py:285-311 | a run keeps `__all__` valid only beside valid attributes, if and only if it does not break on a valid object after storing an error and before any error for the whole object |
| Compliance.RunsKeepSoundExactly | nautobot/data_validation/custom_validators.py:263-338 | any sequence of runs of any classes on any objects is sound all along if and only if none of them hides a failure that way |
| Compliance.LastingRunsKeepSound | nautobot/data_validation/custom_validators.py:263-338 | if objects keep their attributes, no run of any sequence breaks, every table is sound, and the last run's errors are told if its dictionary reaches them |
| Compliance.LostAttributeHidesFailure | nautobot/data_validation/custom_validators.py:304-311 | a valid object has lost a stored attribute and another one fails: it still counts as valid |
| Compliance.LostAttributeBreaksSound | nautobot/data_validation/custom_validators.py:304-311 | three runs that lead there from an empty table |
| ComplianceRules.ComplianceTable.UpdateOrCreate | nautobot/data_validation/custom_validators.py:326-338 | the search for the row to update computes the upsert |
| ComplianceRules.DataComplianceRule.ComplianceResult | nautobot/data_validation/custom_validators.py:318-338 | a verdict is stored under the attribute or under `__all__`; an unreadable attribute raises before anything is stored |
| ComplianceRules.DataComplianceRule.ReportMessages | nautobot/data_validation/custom_validators.py:298-303 | the messages of one entry are stored one after the other, unless the name is unreadable |
| ComplianceRules.DataComplianceRule.ReportFields | nautobot/data_validation/custom_validators.py:295-300 | the loop over the dictionary stores every entry up to the first unreadable name with a message, and excludes that name too |
| ComplianceRules.DataComplianceRule.MarkExistingAttributesAsValid | nautobot/data_validation/custom_validators.py:263-283 | every stored attribute of the object except `__all__` and the excluded ones is marked valid, up to the first that the object no longer has; nothing else changes |
| ComplianceRules.DataComplianceRule.Clean | nautobot/data_validation/custom_validators.py:285-311 | a whole run leaves the table of `AfterRun`; it ends in an `AttributeError` if it breaks, and otherwise passes the audit's error on exactly when enforcing |
| Permissions.GetObjectPermissions | nautobot/core/authentication.py:31-48 | the triple loop's map has exactly the granted names, and under each the constraints stored in its granting rows, be it as the only one or in a list |
| Permissions.ExtendRowsGathers | nautobot/core/authentication.py:41-46 | the nested extension of lists equals the specification row by row |
| Permissions.GatheredMembers | nautobot/core/authentication.py:41-46 | the gathered constraints are those of the granting rows, whatever their order and repetition |
| Permissions.QsFilterFromConstraints | nautobot/core/utils/permissions.py:76-103 | the filter passes an object exactly if some constraint accepts it, a null constraint is among them, or there is none at all |
| Permissions.DecidesMeans | nautobot/core/authentication.py:70-93 | the decision about an object depends on the granting rows and their constraints only |
| Permissions.DecidesExactly | nautobot/core/utils/permissions.py:95-103 | yes if and only if some granting row stores null, a set or a list with a set that accepts the object, or all granting rows (and there are some) store an empty list |
| Permissions.DecisionIgnoresOrderAndRepetition | nautobot/core/authentication.py:31-48 | reordering or repeating the rows changes no decision |
| Permissions.OnlyGainsExactly | nautobot/core/utils/permissions.py:95-103 | no added permission can turn yes into no if and only if the name does not rest on empty constraint lists alone |
| Permissions.AddedPermissionCanRevoke | nautobot/users/models.py:358-364 | a permission that matches no device takes away what an empty constraint list granted |
| PermissionBackend.PermissionNameResolves | nautobot/core/utils/permissions.py:20-34 | a name built from application, action and model resolves to them, also with underscores in the action |
| PermissionBackend.ResolvesExactly | nautobot/core/utils/permissions.py:20-34 | a name resolves to an application, an action and a model if and only if it is made of them |
| PermissionBackend.AdminGroupIsGroup | nautobot/core/authentication.py:54-56 | the name of the group proxy is looked up as that of the group model, for every action without a "u" |
| PermissionBackend.OtherNamesStay | nautobot/core/authentication.py:54-56 | every other name is looked up as it is |
| PermissionBackend.GetAllPermissions | nautobot/core/authentication.py:24-29 | the per-user cache holds the map of the rows and is filled once; inactive and anonymous users have none |
| PermissionBackend.HasPerm | nautobot/core/authentication.py:50-93 | the chain of tests decides what `SpecifiedDecision` says of the rows, with the errors for a bad name or the wrong model |
| PermissionBackend.DecisionExactly | nautobot/core/authentication.py:50-93 | when the answer is yes and when the model is refused, said at once and not as a chain of tests |
| PermissionBackend.OtherDecisions | nautobot/core/authentication.py:51-54 | staff access, and the names that are refused |
| PermissionBackend.GrantedByAssignment | nautobot/core/authentication.py:35-38 | a name is granted if and only if an enabled permission for it names the user or a group of the user |
| PermissionBackend.AnyAnswerDecidesAlike | nautobot/core/authentication.py:35-38 | which answer the join gives, with one copy per matching group in any order, changes no decision |
| ComponentSuppression.SkipAutoComponentCreation.Enter | nautobot/dcim/component_creation.py:80-83 | entering suppresses the task and keeps a token of the value before |
| ComponentSuppression.SkipAutoComponentCreation.Exit | nautobot/dcim/component_creation.py:85-91 | leaving puts back the token's value once; another context's token raises and changes nothing |
| ComponentSuppression.ContextVar.IsSuppressed | nautobot/dcim/component_creation.py:94-100 | a task is suppressed if and only if its context has the flag set |
| ComponentSuppression.SuppressedExactly | nautobot/dcim/component_creation.py:76-100 | in every interleaving of proper blocks, a task is suppressed exactly inside its own blocks or if it began so, and its objects hold the tokens of its blocks |
| ComponentSuppression.SuppressedInside | nautobot/dcim/component_creation.py:94-100 | from any start: a task is suppressed if and only if it is inside a block of its own or its context had the flag set |
| ComponentSuppression.SuppressedOnlyInside | nautobot/dcim/component_creation.py:43-46 | from a fresh context variable: suppressed if and only if inside a block |
| ComponentSuppression.NoExitRaises | nautobot/dcim/component_creation.py:85-91 | no exit of such an interleaving resets another task's token |
| ComponentSuppression.LeavingRestores | nautobot/dcim/component_creation.py:85-91 | a task that has left all its blocks has the value it began with |
| ComponentSuppression.TasksDoNotInterfere | nautobot/dcim/component_creation.py:62-64 | what other tasks do makes no difference to a task |
| ComponentSuppression.RestoredExactly | nautobot/dcim/component_creation.py:58-60 | for any nesting with any reuse of objects: the task ends as it began if and only if no outermost block re-enters its own object, or it was suppressed already |
| ComponentSuppression.NoneRaisesExactly | nautobot/dcim/component_creation.py:80-91 | tasks that share objects at will: no exit raises if and only if none meets its object last entered by another task |
| ComponentSuppression.SharedExactly | nautobot/dcim/component_creation.py:80-91 | if none raises, a task is suppressed exactly inside its blocks, or if it began so, or after an exit from an outermost block that found its object left already |
| ComponentSuppression.SharedRestoredExactly | nautobot/dcim/component_creation.py:80-91 | over every such interleaving: no exit raises and all tasks end as they began if and only if no exit meets the entry of another task, and none from an outermost block of a task that began unsuppressed finds its object left already |
| ComponentSuppression.SharedObjectLeaks | nautobot/dcim/component_creation.py:80-91 | two tasks in one object, the second one leaves first: nothing raises and the first one stays suppressed |
| ComponentSuppression.SharedObjectRaises | nautobot/dcim/component_creation.py:80-91 | if the first one leaves first, its exit raises |
| ComponentSuppression.InsideIsSuppressed | nautobot/dcim/component_creation.py:58-60 | an outer block continues to suppress after any inner ones |
| ComponentSuppression.ReentranceLeaks | nautobot/dcim/component_creation.py:76-91 | one object entered inside its own block leaves the task suppressed |
| Branching.BranchContext.Enter | nautobot/core/branching.py:42-60 | the loop saves each alias's branch and switches it if it differs; without the plugin or a branch nothing changes |
| Branching.BranchContext.Exit | nautobot/core/branching.py:68-83 | the loop returns each alias whose saved branch differs from the requested one |
| Branching.EnteredIs | nautobot/core/branching.py:52-60 | inside, every listed connection is on the branch and no other has moved; an alias listed twice has its original forgotten |
| Branching.AroundIs | nautobot/core/branching.py:42-83 | whatever the body does, a connection listed once that was on another branch is returned; all others are as the body left them |
| Branching.RestoredExactly | nautobot/core/branching.py:42-83 | everything is restored if and only if each alias listed twice was on the requested branch already |
| Branching.DuplicateAliasLosesBranch | nautobot/core/branching.py:52-60 | an alias listed twice stays on the requested branch |
| Branching.ScopesRestore | nautobot/core/branching.py:42-83 | any nesting and sequence of contexts, each listing its aliases once, leaves every connection where it was |
| Templating.ReachesStep | nautobot/core/templating.py:332-336 | reaching a value that carries SQL takes no step, or one step to a source expression and then one step less |
| Templating.SourcesExactly | nautobot/core/templating.py:334-336 | the walk goes to all source expressions that are not `None` |
| Templating.CarriesExactly | nautobot/core/templating.py:318-330 | a value is refused if it is raw SQL, or a query expression given one of the three SQL words as a keyword or an attribute |
| Templating.DenyNestedStep | nautobot/core/templating.py:332-336 | one call of the check: the value itself, or a source expression while the bound is not reached |
| Templating.DenyNestedExactly | nautobot/core/templating.py:313-336 | on any graph, cyclic or not, the nested check raises exactly if a value carrying SQL is reachable in at most 32 steps |
| Templating.DenyExactly | nautobot/core/templating.py:287-310 | so does the whole check from any argument, or if the called class takes SQL or is given it |
| Templating.ReachesSimply | nautobot/core/templating.py:174-174 | in any graph, what is reachable is reachable in fewer steps than the graph has values |
| Templating.SmallGraphsAreCovered | nautobot/core/templating.py:173-174 | on graphs of at most 33 values, however cyclic, the bound misses nothing |
| Templating.ShallowExpressionsAreCovered | nautobot/core/templating.py:173-174 | for expressions nested at most 32 deep, the check raises exactly if SQL occurs anywhere in them |
| Templating.BoundIsTight | nautobot/core/templating.py:332-336 | with 34 values, SQL can be 33 steps away and is let through |
| NavMenu.MenuItems | nautobot/core/context_processors.py:104-117 | the innermost loop copies the permitted items and updates the active link |
| NavMenu.MenuGroups | nautobot/core/context_processors.py:99-119 | the group loop keeps the permitted groups that are not empty and carries the active link along |
| NavMenu.MenuTabs | nautobot/core/context_processors.py:96-121 | the tab loop keeps the permitted tabs that are not empty and carries the active link along |
| NavMenu.NavMenu | nautobot/core/context_processors.py:96-124 | the whole function: the final write finds its entry and marks that entry only |
| NavMenu.ItemMenuCarries | nautobot/core/context_processors.py:113-117 | a permitted item is shown with the name and weight of the registry |
| NavMenu.PermittedExactly | nautobot/core/context_processors.py:97-107 | one of the listed permissions is enough, and none is needed where none is listed |
| NavMenu.MenuCarries | nautobot/core/context_processors.py:96-124 | every item that may be seen stands in the finished menu with the registry's name, weight and tab icon, and is marked if and only if it is the active one |
| NavMenu.MenuHoldsPermitted | nautobot/core/context_processors.py:96-121 | for any registry and user the menu holds exactly the items permitted at tab, group and item level |
| NavMenu.NothingIsEmpty | nautobot/core/context_processors.py:118-121 | no tab and no group of the menu is empty |
| NavMenu.ActiveIsInMenu | nautobot/core/context_processors.py:118-124 | the active link is always an entry of the menu, also after empty groups and tabs were deleted |
| NavMenu.PreferChooses | nautobot/core/context_processors.py:108-111 | the updates of the active link choose the last exact match, or else the first related list match, or else nothing |
| NavMenu.ActiveIsPreferred | nautobot/core/context_processors.py:108-111 | the same over all three loops, among the links the user may see |
| NavMenu.ActiveItemExactly | nautobot/core/context_processors.py:123-124 | at most one item is active, namely the chosen one; its name, its weight and everything else stay |
| UnusedNames.DecimalInjective | nautobot/dcim/factory.py:390-390 | decimal numerals of different numbers differ |
| UnusedNames.DecimalReads | nautobot/dcim/factory.py:390-390 | a numeral reads as its number, without leading zeros |
| UnusedNames.NumberedInjective | nautobot/dcim/factory.py:390-390 | a numbered name gives away its type and its number, also for types with spaces and digits |
| UnusedNames.RoundsDisjoint | nautobot/dcim/factory.py:389-391 | no name is tried in two numbered rounds |
| UnusedNames.UnusedModels | nautobot/dcim/factory.py:385-391 | the loop ends for every finite set of names in use, with the unused names of the first round that has any |
| UnusedNames.SomeRoundIsFree | nautobot/dcim/factory.py:389-391 | after any number of rounds there is one with an unused name |
| UnusedNames.DeviceTypeModel | nautobot/dcim/factory.py:379-392 | the device type's model is unused and as plain as can be: a type's own name if one is free, or else numbered, with all names of lower numbers in use |
| UnusedNames.ModuleTypeModel | nautobot/dcim/factory.py:892-905 | the module type's model is unused and as plain as can be: a type's own name if one is free, or else numbered, with all names of lower numbers in use |
| Uniqueness.CleanUniqueRules | nautobot/data_validation/custom_validators.py:148-163 | the loop reports the field of the first violated rule, and nothing exactly if no rule is violated |
| Uniqueness.RuleAcceptsExactly | nautobot/data_validation/custom_validators.py:152-157 | a rule accepts a write to a conforming table if and only if at most `max_instances` objects hold each truthy value afterwards |
| Uniqueness.WriteAcceptedExactly | nautobot/data_validation/custom_validators.py:148-163 | so do all rules together |
| Uniqueness.AfterWriteExactly | nautobot/data_validation/custom_validators.py:148-163 | a validated write is stored if and only if the table conforms with it |
| Uniqueness.AfterDeleteExactly | nautobot/data_validation/custom_validators.py:148-163 | a delete takes its row away and no other |
| Uniqueness.TruthyExactly | nautobot/data_validation/custom_validators.py:151-151 | the values that are not counted: null, the empty string and zero |
| Uniqueness.RunKeepsRule | nautobot/data_validation/custom_validators.py:148-163 | every run of validated writes and deletes keeps every rule |
| Uniqueness.DeviceAcceptedExactly | nautobot/dcim/custom_validators.py:27-81 | in every mode, the check accepts a write to a unique table if and only if the table is unique afterwards |
| Uniqueness.AfterDeviceWriteExactly | nautobot/dcim/custom_validators.py:27-81 | a validated device is stored if and only if the table is unique with it |
| Uniqueness.RunKeepsDevicesUnique | nautobot/dcim/custom_validators.py:15-81 | every run of validated writes and deletes keeps named devices unique on the mode's key |
| Uniqueness.RelaxedModeKeepsUnique | nautobot/dcim/choices.py:164-169 | a switch from `name` to `location_tenant_name` keeps the table unique, also over later runs |

## Left out

Stated weaker or under a condition:

- BooleanFilters.NullNeverRepeatsExactly: ranges over all databases that respect the declared cardinalities of each field; that a forward relation and its reverse describe the same links is not assumed, so a path that goes back along a relation it came by is judged like any other.
- Compliance.RunLeaves: which attributes are marked before a run breaks depends on the order in which the database lists the rows; the model lists them in the order in which they were first stored. `BreaksExactly` and the condition of `RunKeepsSoundExactly` do not depend on it.
- ComplianceRules.DataComplianceRule.Clean: an audit that raises something other than a `ComplianceError` is not modelled, and the saves themselves succeed, each at once (no surrounding transaction is rolled back).
- Filters.FilterChoiceExact: takes the filters that leave `distinct` to the mixin or have it on; one that was told `distinct=False` may repeat rows, as its author asked. Each value has one key; content types, which have two, are in `LookupFilters`, without the count of copies.
- ModularComponents.SeesOwnerExactly: assumes what model validation guarantees, a component in a device or a module but not both, and one parent per bay.
- RuleCache.CachedAnswersArePlain: reads and writes are atomic and the cache is reachable; branch names contain none of the pattern characters `*`, `?`, `[` and backslash; with branches, content types contain no `(`; other entries of the cache are not under rule keys.
- TreeFilters.FilterTreeExact: takes `cacheable_descendants_pks` by its contract, the keys of the node and its descendants in any order; that method's own cache is not modelled.
- ComponentSuppression.SuppressedExactly: takes blocks on objects that are not already open, in any task; what any other use of the objects does is `RestoredExactly` for one task and `SharedRestoredExactly` for several.
- Branching.BranchContext.Enter: every listed alias names a connection, and checkouts succeed; cursors, logging and the automatic commit on exit are not modelled, nor is one context object entered again inside itself.

Not modelled:

- The ORM's SQL text, query planning and result order; a path's fields are taken as `get_field_parts` resolves them.
- How often a conjoined filter returns a row before its `.distinct()`: `LookupFilters` says which rows it selects. That a multiple-choice filter keeps `conjoined` out of the arguments handed on to new filters is taken from django-filter, which is not part of this model.
- Lookup texts (`icontains`, `iexact`, regular expressions) and preprocessors: parameters of the search filter; `strip` removes the ASCII white space and separators only; a predicate that is neither text nor dictionary raises `TypeError` in the original and cannot be written here.
- Labels and `distinct` arguments of the generated filters.
- `has_empty_module_bays` for a null value, where the original returns the method `queryset.none` without calling it.
- The per-model text of compliance messages, validation dates and attribute values; the row keeps validity and the kind of message.
- Regular expression, min/max and required rules of the validator: library matching and comparison without a property of their own here.
- Value comparison and case rules of the database behind unique rules and device names: values are equal or not.
- Constraint tokens such as `$user` and the fields inside a constraint: a constraint is a test on objects. Which permissions are exempt is a parameter.
- Race windows between a query, another writer's invalidation and the cache write, and suppressed Redis connection errors: the original does not guard against them.
- The random choice among unused names: any of them.
- How `nav_menu` finds the related list view and the current URL, and the version-control picker.
- The protection of sensitive fields elsewhere in the template sandbox.
- Circuit termination pointers, tables, forms, views, settings and factories' field declarations: data, plumbing or I/O.
