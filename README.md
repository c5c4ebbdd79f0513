# TransferElements: a verified model of breakpoint-driven element relocation

`TransferElements` (src/transfer-elements.js) moves DOM elements between
containers as the width of the page changes. Its earlier version, `Transfer`
(demo/index.js), works the same way. Each constructor argument names a
*source element* and a set of *breakpoints*. A breakpoint maps a width
threshold to a *target element* and a *target position*: the index among
the target's children where the source should go. The engine works
"desktop first": at width `w` the active breakpoint is the smallest
threshold that is at least `w`. When every threshold is below `w`, the
active breakpoint is the synthesized `default`, which records where the
source sat when the engine was built.

Construction has four phases:
1. Validate every object.
2. Collect the numeric thresholds into `sortedBreakpointTriggers`, with
   `default` as the last element.
3. Fill a storage list per trigger.
4. Run the *transfer simulation*. For every trigger in order, it sorts the
   trigger's list by position, removes the listed sources, and reinserts
   them with a bound check. The DOM itself refuses, with a
   `HierarchyRequestError`, to insert a source under a node of its own
   subtree. It then *regenerates* the list as a record of
   where every source now is. This is what seals the storage.

On every width notification, the handler picks the active trigger. If it
differs from the previous one, the handler applies that trigger's sealed
list without the bound check.

The model:

- **Layouts** (`layouts.dfy`). The tree as a map from node to its ordered
  child sequence. `Detach` is `remove()`. `Attach` is "insert before the
  child at an index, or append".
- **DomTree** (`dom_tree.dfy`). A class `Tree` with `kids` and `parent`
  fields. Its two mutating methods are the two mutations the engine
  performs; insertion first asks whether the target lies inside the node
  (`Contains`), as the DOM does. It keeps the child sequences and the parent
  links consistent, and the tree acyclic.
- **Selection** (`selection.dfy`). The trigger array and the two searches
  for the active trigger: bisection (current version) and a linear scan
  (earlier version). Both are proved against one desktop-first
  specification, `Selects`.
- **Validation** (`validation.dfy`):
  - the per-entry checks with their error kinds;
  - the ancestor walk;
  - `Object.fromEntries` (a later equal key wins);
  - the `default` object;
  - the constructor's `map` over its arguments.
- **Instructions** (`instructions.dfy`):
  - breakpoint objects;
  - the stable sort by position;
  - "remove all, then insert in order".

  The central theorem, `ApplyReproducesLayout`, concerns a sorted record of
  a layout `T`. Applying that record to any tree that differs from `T` only
  in where the sources are rebuilds `T`, and the bound check never fires.
- **Storage** (`storage.dfy`):
  - the trigger collection and its two orders;
  - the initial lists;
  - one simulated key (`Step`) and the whole simulation (`Simulate`);
  - the regenerated record.
- **Engine** (`engine.dfy`). The imperative loops of the constructor:
  - removal and insertion on the `Tree`;
  - record regeneration;
  - trigger collection;
  - the simulation loop.

  Each is proved against the functions of Storage and Instructions.
- **Cascade** (`cascade.dfy`). Where the simulation leaves each source: under
  the target of the last simulated key that configures it. It shows that
  this is the desktop-first placement when keys are simulated from the
  largest threshold down, and that it is not when they are simulated in
  ascending order (see Findings).
- **Relocation** (`relocation.dfy`). The class `TransferElements`, holding:
  - the triggers;
  - the sealed storage;
  - `previousBreakpointTrigger`;
  - as ghost state, the snapshot of every key.

  Its invariant states that the tree is always the snapshot of the previous
  trigger. After every width notification, every source sits under the
  target that desktop first selects for it at that width, or under its
  `default` parent when none applies; its index among that target's
  children is not part of this statement.

One class models both versions. A `Variant` field selects the trigger order
(ascending or descending) and the search (bisection or linear scan). The
construction simulates keys from the largest threshold down, with `default`
last, for both variants. That is the earlier version's order, and the
corrected behaviour of the current one; the current version's ascending
simulation is modelled separately, under Findings.

The simulation runs `default` last, and `default`
restores every source to the slot it recorded. So after construction the
document is back in its original layout (`TransferElements.Create`,
`Engine.SimulateKeys`). The engine's first actual move happens at the first
width notification.

## Model

| member | source | states |
|---|---|---|
| Selection.BinarySelect | src/transfer-elements.js:222-245 | On ascending triggers with `default` last, the bisection returns the smallest threshold at least the width, or `default` when all are below it. An exact hit returns at once. |
| Selection.LinearSelect | demo/index.js:341-360 | On descending triggers, the scan from the smallest threshold returns the first threshold at least the width, or `default`. This is the same desktop-first choice. |
| Selection.SelectorsAgree | src/transfer-elements.js:222-245 | Two trigger arrays with the same keys, in whatever order, select the same trigger for the same width: the two versions' searches agree (demo/index.js:341-360). |
| Validation.ValidateTrigger | src/transfer-elements.js:150-158 | A key is accepted exactly when `Number(key)` is finite, positive and at most `Number.MAX_SAFE_INTEGER`. Otherwise a RangeError is raised. NaN (a key spelt `default`) and infinities are rejected. |
| Validation.ValidatePosition | src/transfer-elements.js:188-196 | A missing `targetPosition` is 0. A non-number raises a TypeError. A number is accepted exactly when it is a non-negative safe integer; otherwise a RangeError is raised. |
| Validation.IsTargetInsideSource | src/transfer-elements.js:264-275 | The `parentElement` walk from the target answers whether the source is a proper ancestor of the target. |
| Validation.AncestorFuelSuffices | src/transfer-elements.js:268-272 | The walk stops at the root, not at an arbitrary bound: more steps give the same answer. |
| Validation.ValidateEntry | src/transfer-elements.js:149-206 | An entry is accepted exactly when it passes every rule. The first failing check decides the error: a key out of range gives a RangeError whatever else is wrong; then a target equal to the source; then a target inside the source; then a target that is not a paired tag; then the position's own error. |
| Validation.ValidateEntries | src/transfer-elements.js:148-207 | Every entry is checked in entry order. Acceptance is all entries acceptable, and each validated entry keeps its key, target and position. |
| Validation.ValidateEntriesRejects | src/transfer-elements.js:148-207 | On failure the error is that of the first rejected entry: every entry before it is acceptable. |
| Validation.EntryRejectedLater | src/transfer-elements.js:148-207 | A failure of the entries after an acceptable first entry is a failure of the whole list at the next index. |
| Validation.FromEntries | src/transfer-elements.js:147 | The breakpoint keys are exactly the numeric keys of the entries, and every stored place comes from an entry with that key. |
| Validation.FromEntriesLastWins | src/transfer-elements.js:147-208 | Among entries with the same numeric key, the last one is the one kept. |
| Validation.LastEntriesWin | src/transfer-elements.js:147-208 | For every raw entry that is the last with its key, `Object.fromEntries` over the validated entries maps that key to the entry's place. |
| Validation.CurrentPlace | src/transfer-elements.js:336-355 | The `default` object names the source's parent and the index of the source among that parent's children. A source without a parent fails. |
| Validation.AssembleBreakpoints | src/transfer-elements.js:136-216 | Accepts exactly the objects whose entries are all acceptable and whose source has a parent. An empty breakpoints object raises an error. The result has one key per distinct entry key, every target a container, and `default` at the source's current slot. |
| Validation.AssembleBreakpointsFails | src/transfer-elements.js:136-216 | For a non-empty breakpoints object, the first entry error wins; with all entries acceptable, a source without a parent fails. |
| Validation.AssembleBreakpointsLastWins | src/transfer-elements.js:147-208 | For every entry that is the last with its key, the assembled object maps that key to the entry's target and position. |
| Validation.ValidateFrom | src/transfer-elements.js:16-49 | On success there is one validated object per argument, in argument order, each the assembly of its argument. |
| Validation.ValidateFromRejects | src/transfer-elements.js:16-49 | On failure, every object before some index passed, and the object at that index fails: with the duplicate-source TypeError when its source was already recorded, otherwise with its own assembly error. |
| Validation.SeenBeforeShift | src/transfer-elements.js:36-40 | After the first source is recorded, the sources recorded when the rest reaches index `k` are those recorded when the whole list reaches `k + 1`. |
| Validation.SpecRejectedLater | src/transfer-elements.js:16-49 | A failure of the later objects after an accepted first object is a failure of the whole walk at the next index. |
| Validation.ValidateFromAccepts | src/transfer-elements.js:36-45 | The constructor's `map` succeeds exactly when no source element is named twice and every object passes its own checks. |
| Validation.ValidateFromSound | src/transfer-elements.js:36-40 | Success implies distinct sources and acceptable objects. |
| Validation.ValidateFromComplete | src/transfer-elements.js:36-40 | Distinct sources and acceptable objects imply success. |
| Validation.ValidateSpecs | src/transfer-elements.js:10-49 | No arguments raises a TypeError. Otherwise the constructor's validation succeeds exactly when the sources are distinct and every object is acceptable, and it yields each object's assembly; a failure is that of the first rejected object, a repeated source included. |
| Layouts.InsertBefore | src/transfer-elements.js:312-320 | The source goes immediately before the child at the position when one exists (neighbours keep their order), and is appended otherwise. |
| Layouts.IndexOf | src/transfer-elements.js:341-347 | `findIndex` gives the index of the first occurrence of the element. |
| Layouts.RemoveUndoesInsert | src/transfer-elements.js:289-320 | `remove()` undoes the insertion of an element that was not in the sequence. |
| Layouts.WithinChild | src/transfer-elements.js:316-319 | A child of a node inside `n` is inside `n`. |
| Layouts.WithinBelow | src/transfer-elements.js:316-319 | Only a node with children has other nodes inside it. |
| Layouts.WithinContained | src/transfer-elements.js:316-319 | A tree whose edges are edges of another has no more nodes inside `n` than the other. |
| Layouts.RankedAcyclic | src/transfer-elements.js:316-319 | A tree with a rank that grows along every edge has no node inside its own child. |
| Layouts.AttachRanked | src/transfer-elements.js:316-319 | Inserting a node under a target that is not inside it keeps the tree rankable, hence acyclic. |
| Layouts.OffSourcesContained | src/transfer-elements.js:289-293 | Removing sources only removes edges. |
| DomTree.Tree.Remove | src/transfer-elements.js:291 | `remove()` takes the node out of its parent's children and drops its parent link; nothing else changes. |
| DomTree.WithinUp | src/transfer-elements.js:316-319 | A node other than `n` is inside `n` exactly when it has a parent and that parent is inside `n`. |
| DomTree.Tree.Contains | src/transfer-elements.js:316-319 | The walk up the parent links from `x` answers whether `x` is inside `n` (the DOM's pre-insertion check). |
| DomTree.AncestorIffWithin | src/transfer-elements.js:264-275 | On an acyclic document whose parent chain from the node ends, the validation's parent walk finds `a` as a proper ancestor of `n` exactly when `n` lies in the subtree of `a` and differs from it, which is what the DOM's insertion check tests. |
| DomTree.AncestorWithin | src/transfer-elements.js:264-275 | A proper ancestor found by the parent walk has the node in its subtree. |
| DomTree.Tree.InsertAt | src/transfer-elements.js:312-320 | Inserting a detached node succeeds exactly when the target is not inside the node. It then puts the node under the target by the before-or-append rule and links it to the target; otherwise it raises `HierarchyRequestError` and the tree is unchanged. The tree stays consistent and acyclic. |
| DomTree.RemoveKeepsConsistent | src/transfer-elements.js:291 | Removal changes only the old parent's children and keeps children and parent links in agreement. |
| DomTree.InsertKeepsConsistent | src/transfer-elements.js:317-319 | Inserting a detached node keeps children and parent links in agreement. |
| DomTree.ParentDetermined | src/transfer-elements.js:337 | The child sequences determine the `parentElement` links. |
| Instructions.SortByPositionFacts | src/transfer-elements.js:281-287 | The sort orders the list by target position and is a permutation of it. |
| Instructions.SortByPositionStable | src/transfer-elements.js:281-287 | The sort is stable: entries with the same position keep their order. |
| Instructions.InsertAll | src/transfer-elements.js:295-334 | Insertion keeps the node set. Without the check the only failure is a `HierarchyRequestError`, and it names one of the listed source and target pairs; with the check a RangeError is possible too. |
| Instructions.RemoveAllIsOffSources | src/transfer-elements.js:289-293 | Removing the listed sources one by one leaves exactly the tree without those sources. |
| Instructions.InsertAllRestores | src/transfer-elements.js:295-334 | Inserting a sorted record of an acyclic layout, in order, into that layout without its sources rebuilds it: no position exceeds its target's child count and no target lies inside its source. |
| Instructions.ApplyReproducesLayout | src/transfer-elements.js:120-129 | Applying a sorted record of an acyclic layout `T` (remove all, then insert in order) to any tree that differs from `T` only in where the sources are yields `T`, with or without the bound check, and the DOM never refuses an insertion. |
| Storage.AddThreshold | src/transfer-elements.js:51-65 | Adding a key to the collection keeps it strictly ascending and adds exactly that key. |
| Storage.AscendingUnique | src/transfer-elements.js:51-65 | Two ascending arrays with the same keys are equal, so the trigger array is determined by the key set. |
| Storage.TriggerOrder | src/transfer-elements.js:51-65 | The trigger array holds every threshold once, followed by `default`: ascending in the current version, descending in the earlier one (demo/index.js:67-83). |
| Storage.ListFor | src/transfer-elements.js:77-89 | A key's initial list holds exactly the entries the objects configure at that key. |
| Storage.ListForDefault | src/transfer-elements.js:210-213 | The `default` list has one entry per object, in argument order, naming the source's recorded slot. |
| Storage.ListForDistinct | src/transfer-elements.js:77-89 | A key's list names each source at most once. |
| Storage.Step | src/transfer-elements.js:91-96 | Simulating one key keeps the node set, and can fail only with the position bound error or a `HierarchyRequestError`. |
| Storage.Simulate | src/transfer-elements.js:91-107 | The simulation yields one snapshot per key over the same nodes, or fails with the bound error or a `HierarchyRequestError`. |
| Storage.StepOffSources | src/transfer-elements.js:91-96 | A simulated key moves only the sources it lists. |
| Storage.DefaultStepRestores | src/transfer-elements.js:91-96 | Simulating `default` from any tree that differs from an acyclic start only in where the sources are gives back the starting layout, and neither the bound check nor the DOM's hierarchy check fires. |
| Storage.RecordIn | src/transfer-elements.js:99-104 | The regenerated list has one entry per source, in argument order, each naming the slot its source occupies. |
| Storage.RecordSorted | src/transfer-elements.js:99-106 | The regenerated and sorted list is a sorted record naming every source once. |
| Storage.SimulateNext | src/transfer-elements.js:91-107 | One more key extends the simulation by its step, and `default` brings back the starting layout. |
| Storage.SimulateFails | src/transfer-elements.js:91-96 | A key whose step fails (a position above a target's child count, or a target inside its source) makes the whole construction fail with that error. |
| Storage.SimulateKeepsOffSources | src/transfer-elements.js:91-107 | Every snapshot leaves the elements that are not sources where they were. |
| Engine.RemoveSources | src/transfer-elements.js:289-293 | The loop removes every listed source from the `Tree`: the new children are the value-level removal, and the listed sources lose their parent links. |
| Engine.InsertSources | src/transfer-elements.js:295-334 | The loop inserts every listed source. It succeeds or fails exactly as the value-level insertion, bound error and `HierarchyRequestError` alike; on success the children are its result, and on failure the error is its error. |
| Engine.GenerateRecord | src/transfer-elements.js:99-104 | The loop builds, for every source in order, the record of its parent and index in the current tree. |
| Engine.CollectThresholds | src/transfer-elements.js:51-65 | The `reduce` collects exactly the numeric keys of all objects into a strictly ascending array. |
| Engine.ValidatedIsPrepared | src/transfer-elements.js:16-49 | Validated objects have distinct, attached sources, known targets, and a `default` naming each source's slot. |
| Engine.SimulateKey | src/transfer-elements.js:91-106 | One turn of the simulation loop: the tree becomes the key's `Step`, or the method reports its error. On success it returns the sorted regenerated record of the new tree. |
| Engine.SimulateKeys | src/transfer-elements.js:91-107 | The loop succeeds exactly when `Simulate` does, with the same error. On success the tree is back at the start, the storage has exactly the triggers as keys, each list is the sorted record of its snapshot, and the `default` snapshot is the start. |
| Engine.RecordNext | src/transfer-elements.js:91-107 | One key simulated and stored keeps the loop invariant; its failure is the construction's failure. |
| Cascade.StepWhere | src/transfer-elements.js:91-96 | One simulated key moves an object's source under the key's target when the object configures that key, and leaves it where it was otherwise. |
| Cascade.SimulateWhere | src/transfer-elements.js:91-107 | In the snapshot of a key, a source is under the target of the last key simulated so far that configures it, or under its original parent when there is none. |
| Cascade.DescendingCascade | demo/index.js:58-83 | With triggers simulated from the largest threshold down, every numeric snapshot puts each source under the target desktop first selects for it at that threshold, or under its `default` parent when no breakpoint of its object applies. The index among the target's children is not stated. |
| Cascade.ArrivesAll | src/transfer-elements.js:111-131 | The snapshot of the trigger selected for width `w` puts every source under the target desktop first selects for it at `w` (its `default` parent when none applies). The index among the children is not stated. |
| Cascade.AtFrontSimulates | src/transfer-elements.js:325-334 | When every threshold entry inserts at position 0 and no source has children, no trigger order makes the simulation fail: neither the bound check nor the hierarchy check fires. |
| Cascade.AscendingMisplaces | src/transfer-elements.js:51-65 | As written (ascending simulation), on a two-object page the snapshot of trigger 992, selected at width 900, holds element 10 under node 2, although desktop first places it under node 1. |
| Cascade.DescendingPlaces | demo/index.js:67-83 | Simulated descending, the same page keeps element 10 under node 1 in the snapshot of 992. |
| Cascade.NestedFails | src/transfer-elements.js:91-107 | On a page where element 10 moves into element 11 at 768 and 11 into 10 at 992, the simulation fails with a `HierarchyRequestError` in both trigger orders, although at the start neither target lies inside its source. |
| Relocation.ApplyStored | src/transfer-elements.js:120-129 | Applying any stored list without the check, from any tree that differs from the start only in where the sources are, yields that key's snapshot. |
| Relocation.Sealed | src/transfer-elements.js:91-107 | The storage the loop leaves is faithful: for every key, a sorted record of its snapshot, naming every source once, with the other elements where they started. |
| Relocation.Landed | demo/index.js:138-197 | The descending simulation's numeric snapshots put each source under the target desktop first selects for it at their threshold (or its `default` parent). |
| Relocation.Intention | src/transfer-elements.js:51-107 | The snapshots of the descending simulation follow the objects under either variant's trigger array. |
| Relocation.Built | src/transfer-elements.js:51-109 | What construction stores seals an engine: triggers in the variant's order, one faithful list per trigger, snapshots that follow the objects. |
| Relocation.TransferElements.Create | src/transfer-elements.js:9-134 | Construction fails exactly as validation or the simulation fails (bound error or `HierarchyRequestError` included), with the same error, leaving the tree untouched when validation fails. On success it returns an engine with `default` as the previous trigger, the triggers in the variant's order, and the tree back in its starting layout. |
| Relocation.TransferElements.Build | src/transfer-elements.js:51-109 | Past validation, construction succeeds exactly when the simulation does, and fails with the simulation's error (bound error or `HierarchyRequestError`). On success the snapshots are the simulation's layouts and the tree is back at the start. |
| Relocation.TransferElements.OnResize | src/transfer-elements.js:111-131 | After a width notification, the previous trigger is the one desktop first selects for the width. The tree is that trigger's snapshot, so every source is under the target desktop first selects for it at that width (or its `default` parent). An unchanged trigger leaves the tree alone. |
| Relocation.TransferElements.Switch | src/transfer-elements.js:120-129 | Applying the stored list of a new trigger makes the tree that trigger's snapshot; the same trigger changes nothing. |

## Left out

- `ResizeObserver` and `#getScrollbarWidth` (src/transfer-elements.js:111-113, 247-258) read the browser. The effective width (inline size plus scrollbar width) is the parameter of `OnResize`.
- The runtime type checks (`#getObjectType`, `instanceof Element`, `Object.hasOwn`, src/transfer-elements.js:18-34, 137-139, 160-172) are replaced by typed input. The model has no way to pass a non-object or a non-element.
- `#isTagOfTargetElementSelfClosing` (src/transfer-elements.js:277-279) is a regular expression over `outerHTML`. It is modelled as membership in a given set of `containers` (paired-tag elements).
- JavaScript numbers are doubles. Keys and widths are `real`. The equality and order comparisons the engine makes are kept, and rounding is not modelled.
- `Array.prototype.sort` (src/transfer-elements.js:281-287) sorts in place. It is modelled as a stable sort on values, because the engine only reads the sorted list.
- The trigger array's comparator gives NaN for `'default'`. The model assumes `default` ends last, as the engines' code and comments rely on.
- The simulation overwrites each list in place (`breakpointObjects.length = 0`, then pushes). The model stores the regenerated list in the storage map instead.
- Error message texts are not modelled. Each error is a constructor of `Errors.Error` with its JavaScript kind (TypeError, RangeError, or DOMException for the `HierarchyRequestError` of an insertion).
- Relocation.TransferElements.Create: for the current version, the construction simulates triggers descending, which is the corrected order. The ascending order the code uses is modelled in `Cascade.AscendingMisplaces` (see Findings).
- Relocation.TransferElements.Create: the constructor overwrites each caller argument's `breakpoints` property with the assembled object (src/transfer-elements.js:42-45, demo/index.js:49-52), so the caller's object afterwards has a `default` key; passing the same argument object to a second constructor then fails, unless an earlier check fails first, with the RangeError for the key `default`, since `Number('default')` is NaN. Arguments are values here, so this effect on the caller is not modelled.
- Relocation.TransferElements.Build: simulates descending for both variants, like `Create`; the current version's ascending simulation is modelled in `Cascade.AscendingMisplaces`.
- Validation.IsTargetInsideSource: requires the `parentElement` links to be acyclic, which the DOM guarantees.
- Of the DOM's insertion errors only `HierarchyRequestError` for a target inside the inserted node is modelled; the node kinds that cannot have children are outside the model, because every target is an element.
- Layouts are trees: the model's tree carries a ghost rank that grows along every edge, standing for the DOM's guarantee that no node is its own ancestor.
- A DOM element removed from the document by other code during the engine's life is not modelled; the tree changes only through the engine.

## Findings

| source | as written | input that shows it | evidently intended | confidence | as-written member | corrected member |
|---|---|---|---|---|---|---|
| src/transfer-elements.js:51-65 | The triggers are sorted ascending (`(a, b) => a - b`), so the storage Map, and the transfer simulation over it, runs from the smallest threshold up. A source not configured at a larger threshold keeps the move a smaller threshold made into that threshold's snapshot. | Layout `{1: [10, 11], 2: [], 3: []}`. Element 10 moves to node 2 at 768. Element 11 moves to node 3 at 992. At width 900, trigger 992 is selected, and its snapshot holds element 10 under node 2. | Desktop first puts element 10 back under node 1 at 900. The earlier version simulates from the largest threshold down (demo/index.js:58-83), which gives that. | not executed | Cascade.AscendingMisplaces | Cascade.DescendingCascade |
