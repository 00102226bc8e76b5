# Case hierarchy tree grid, modelled in Dafny

A model of the Lightning web component `caseHierarchyComponent`, which shows
Salesforce cases in a tree grid and loads each case's child cases lazily, the
first time its row is expanded. Three parts are modelled:

- the **graft** (`getNewDataWithChildren`): a recursive walk over the rows
  that replaces the `_children` of every row it reaches, i.e. every row whose
  `Id` is the expanded row's id and that has no matching row above it, by the
  freshly loaded rows (`CaseTree.Graft`); the walk does not enter a matching
  row, so a matching row below another one is dropped with its parent's old
  children;
- the **root load** (`parentCase`, the handler of the wired
  `getAllParentCases` call): data becomes one childless row per record and
  clears `isLoading`; an error changes nothing (`CaseHierarchy.OnWire`);
- the **row toggle** (`handleOnToggle`): guarded by
  `!hasChildrenContent && isExpanded`, it requests the row's children and
  then grafts them, raises a warning toast (empty or null result) or raises
  an error toast (rejection); `isLoading` ends false in every case
  (`CaseHierarchy.Toggle` is `SettleToggle` after `BeginToggle` when the
  guard holds, and leaves the state unchanged when it does not).

The JavaScript mutates rows in place and ignores the recursive call's return
value; its observable result is the pure rebuild modelled here, in which a
non-matching row with children gets the recursion's result as children.
Server calls are not made: their outcomes (`WireResponse`, `ChildOutcome`)
are parameters of the transitions, and each handler is one atomic step.
The state also records the ids passed to `getChildCases` (`requests`), so
that "no request is issued" can be stated.

Files: `wrappers.dfy` (Option), `case_tree.dfy` (rows and graft),
`case_tree_lemmas.dfy` (graft properties, stated over paths into the tree),
`case_hierarchy.dfy` (state and handlers), `case_hierarchy_lemmas.dfy`
(properties of the handlers and of event sequences),
`case_hierarchy_scenarios.dfy` (concrete examples).

`data.map` (caseHierarchyComponent.js:80-96) does not stop at the first hit:
every matching row on each level the walk enters gets the new children
(`CaseTreeLemmas.EveryVisitedMatchReplaced`,
`CaseHierarchyScenarios.DuplicateIdsAllReplaced`).

## Model

| member | source | states |
|---|---|---|
| CaseTree.Wrap | force-app/main/default/lwc/caseHierarchyComponent/caseHierarchyComponent.js:25-28 | a record becomes a row with empty `_children` from which the record is recovered unchanged |
| CaseTree.WrapAll | force-app/main/default/lwc/caseHierarchyComponent/caseHierarchyComponent.js:44-47 | one row per record, same count and order, each carrying its record and no children |
| CaseTree.Graft | force-app/main/default/lwc/caseHierarchyComponent/caseHierarchyComponent.js:79-96 | the result has the input's length and each row keeps its id and display fields, position by position; recursion enters a row only when `HasChildrenContent` (non-empty `_children`, js:81-88) holds |
| CaseTree.GraftNode | force-app/main/default/lwc/caseHierarchyComponent/caseHierarchyComponent.js:80-95 | a row keeps its id and fields; a matching row's children become exactly the new children; a non-matching row keeps its number of children |
| CaseTreeLemmas.GraftPointwise | force-app/main/default/lwc/caseHierarchyComponent/caseHierarchyComponent.js:80-96 | the graft is a row-by-row map: position k of the result is the graft of row k |
| CaseTreeLemmas.NonMatchingRow | force-app/main/default/lwc/caseHierarchyComponent/caseHierarchyComponent.js:92-94 | a non-matching row's children become the graft of its children, and nothing else about it changes |
| CaseTreeLemmas.GraftMiss | force-app/main/default/lwc/caseHierarchyComponent/caseHierarchyComponent.js:79-96 | grafting an id that occurs nowhere in the tree returns the tree unchanged |
| CaseTreeLemmas.GraftNodeMiss | force-app/main/default/lwc/caseHierarchyComponent/caseHierarchyComponent.js:82-95 | a subtree containing no row with the id is returned unchanged |
| CaseTreeLemmas.ChildlessRowUntouched | force-app/main/default/lwc/caseHierarchyComponent/caseHierarchyComponent.js:82-95 | a non-matching row with empty children is returned unchanged; it is the childless case of `GraftNodeMiss` |
| CaseTreeLemmas.GraftVisited | force-app/main/default/lwc/caseHierarchyComponent/caseHierarchyComponent.js:80-95 | a path with no matching row above its end exists before the graft iff after; its row keeps id and fields, gets exactly the new children if it matches, and the graft of its children otherwise |
| CaseTreeLemmas.EveryVisitedMatchReplaced | force-app/main/default/lwc/caseHierarchyComponent/caseHierarchyComponent.js:90-91 | every matching row with no matching ancestor ends with the new children verbatim, even if it had none before |
| CaseTreeLemmas.GraftIdempotent | force-app/main/default/lwc/caseHierarchyComponent/caseHierarchyComponent.js:90-93 | grafting twice with the same id and children equals grafting once |
| CaseTreeLemmas.GraftNodeIdempotent | force-app/main/default/lwc/caseHierarchyComponent/caseHierarchyComponent.js:90-95 | the same for a single row and its subtree |
| CaseHierarchy.OnWire | force-app/main/default/lwc/caseHierarchyComponent/caseHierarchyComponent.js:21-31 | data without error yields one childless row per record in order and loading off; an error, or no data, leaves the state unchanged; no toast either way |
| CaseHierarchy.BeginToggle | force-app/main/default/lwc/caseHierarchyComponent/caseHierarchyComponent.js:37-40 | when the guard `Fires` (`!hasChildrenContent && isExpanded`, js:38) holds, loading goes on and one request for the row's id is issued; otherwise nothing changes |
| CaseHierarchy.SettleToggle | force-app/main/default/lwc/caseHierarchyComponent/caseHierarchyComponent.js:41-75 | a `NonEmpty` result (`result && result.length > 0`, js:43) is grafted with no toast; an empty or null result adds one warning; a rejection adds one error; loading ends off in all three |
| CaseHierarchy.Toggle | force-app/main/default/lwc/caseHierarchyComponent/caseHierarchyComponent.js:33-77 | guard false: state unchanged and no request; guard true: one request, loading off, and either a graft with no toast or an unchanged tree with exactly one warning or error toast appended |
| CaseHierarchyLemmas.ToggleLoadsChildren | force-app/main/default/lwc/caseHierarchyComponent/caseHierarchyComponent.js:43-52 | after a successful toggle every reached row with the toggled id has exactly the returned records, as childless rows, for children |
| CaseHierarchyLemmas.ToggleUnknownRow | force-app/main/default/lwc/caseHierarchyComponent/caseHierarchyComponent.js:48-52 | toggling a row id absent from the tree never changes the tree, whatever the outcome |
| CaseHierarchyLemmas.LoadedRowIsNotRefetched | force-app/main/default/lwc/caseHierarchyComponent/caseHierarchyComponent.js:38 | once a row's children are loaded it reports children, so a later expansion issues no request and changes nothing (children are never refreshed) |
| CaseHierarchyLemmas.RunInvariants | force-app/main/default/lwc/caseHierarchyComponent/caseHierarchyComponent.js:21-77 | over any event sequence: requests are exactly the guarded toggles' ids in order, toasts only grow and by at most one per request, and loading once off stays off |
| CaseHierarchyLemmas.RootLoadErrorKeepsSpinner | force-app/main/default/lwc/caseHierarchyComponent/caseHierarchyComponent.js:17-23 | a root-load error on a fresh component (`Initial`: no rows, loading on, js:17-18) leaves no rows and loading on, with no toast |
| CaseHierarchyScenarios.LoadThenExpand | force-app/main/default/lwc/caseHierarchyComponent/caseHierarchyComponent.js:24-52 | loading root "1" then expanding it with "1a","1b" gives root "1" with exactly those two childless children, loading off, no toast |
| CaseHierarchyScenarios.DuplicateIdsAllReplaced | force-app/main/default/lwc/caseHierarchyComponent/caseHierarchyComponent.js:80-91 | two sibling rows with the same id both receive the new children |
| CaseHierarchyScenarios.NestedMatchNotReached | force-app/main/default/lwc/caseHierarchyComponent/caseHierarchyComponent.js:90-93 | a matching row nested under a matching row is not reached: the outer row's children become the new children and the inner match is gone |

## Left out

- The server calls `getAllParentCases` and `getChildCases`: remote calls, modelled only by their outcomes passed in as parameters.
- Promise asynchrony and interleaving of overlapping toggles: each toggle is one atomic transition, so the state while a request is pending (loading on) appears only between `BeginToggle` and `SettleToggle`.
- `@wire` reactivity and the component's re-rendering: framework behaviour.
- Toast titles and message text (including the string coercion of the error): only the variant and the number of toasts are recorded.
- `console.log` and `console.error`: output only.
- The `COLS` column list and `gridColumns`: display configuration.
- Object-spread precedence when a raw record already carries `_children`: records are assumed to carry none.
- In-place mutation, and the same `newChildren` array being shared by several matching rows: rows are immutable values here.
- The `Array.isArray` and own-property tests on `_children`: in the model every row always has a sequence of children.
