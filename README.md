# Layout tree engine of bimdata/areas

This project models the two layout engines of the areas library, and proves
properties of them.

- **The area layout** of `src/Layout.js` is a tree:
  - a leaf is an *area* `{type: "area", id}`;
  - an inner node is a *container* `{type: "container", id, key, direction, ratios, children}`.
- **The window layout** of `src/components/Layout.js` is the same tree. A leaf
  is a *window* and an inner node a *layer*, whose `windows` array plays the
  part of `children`.

Both engines change the tree by these operations:
- splitting a leaf in two, either along its container's direction or across it
  in a new two-child container;
- deleting a leaf, which merges its ratio into a neighbour or collapses a
  two-child container into its remaining child;
- overwriting a container's ratios;
- re-keying a container and its ancestors, so that the renderer rebuilds them.

Both engines find nodes by searching the lists of nested leaves and
containers.

## How the model is built

- The tree is the value `LayoutTree.Node`.
- An in-place change to the object at some position is `Replace` of the
  subtree at that `Path`.
- Each operation is a function from the layout before to the layout after, or
  to the error thrown:
  - area layout: `AreaLayout.AfterSplit`, `AreaLayout.AfterDelete`,
    `AreaLayout.AfterRatioUpdate`;
  - window layout: `WindowLayout.SplitWindowAsWritten`,
    `WindowLayout.DeleteWindowAsWritten`, `WindowLayout.RatioUpdateAsWritten`.
- The properties of these functions are the lemmas beside them.
- The two Vue components are the classes `AreaEngine.Layout` and
  `WindowEngine.Layout`. Their methods change the `layout` field step by step,
  as the source does, and are proved to reach exactly the layout (and to throw
  exactly the error) that the function describes.
- The invariant both classes keep (`Valid`) has two parts:
  - every container has two children at least and a ratio for each;
  - no id is used twice by two nodes of the same kind.
- The window engine has several defects (see "## Findings"). Beside the code as
  written, `WindowLayout.SplitWindow` and `WindowLayout.DeleteWindow` model the
  operations as they are evidently meant to work. They are proved to:
  - agree with the area engine's split and delete;
  - agree with the code as written, keys aside, where no layer below the root
    has the window's id and one of these holds:
    - a split in a layout that has a layer at all (a single window cannot be
      split as written: first row of "## Findings");
    - a delete from a layer that keeps two children or more;
    - a delete from a root layer of two children, where the source's TypeError
      comes exactly when the child that remains is a window (last row).
- Only a layer below the root can be mistaken for the window by the untyped
  lookups, so the root layer may share the window's id. A delete that
  collapses a nested layer can differ even where no layer has that id
  (`WindowLayout.CollapseDisagrees`, fourth row of "## Findings").
- In a split along the container's direction the percentage share goes to the
  first of the two slots, whichever of them holds the new area
  (src/Layout.js:100-108). A description of the library gives it to the new
  area instead; the model follows the code.

## Model

| member | source | states |
|---|---|---|
| Ratios.SplitSlot | src/Layout.js:108 | `ratios.splice(i, 1, a, b)`: slot `i` becomes `a, b`, everything else is kept in place, and the total changes by `a + b - ratios[i]` |
| Ratios.MergeRatios | src/Layout.js:125-146 | the ratio of the removed child goes to its predecessor, or to its successor when it is the first; one fewer ratio, the same total |
| Ratios.Overwrite | src/Layout.js:70 | `splice(0, n, ...news)`: the first `n` ratios are the new ones, the rest are kept, and a longer input grows the array |
| Ratios.ShiftPush | src/components/Layout.js:50-53 | the shift/push loop leaves the ratios `ShiftPushed(old, news)` |
| Ratios.ShiftPushedShorter | src/components/Layout.js:47-54 | with no more new ratios than old, the old tail moves to the front and the new ratios land at the end; only an equal count puts them in place |
| Traversal.FindIndex | src/Layout.js:49-51 | `find`: the index found satisfies the test and no earlier one does; `None` only when no element does |
| Traversal.AreasOf | src/Layout.js:205 | getAreas keeps exactly the leaf children |
| Traversal.ContainersOf | src/Layout.js:206 | getContainers keeps exactly the container children |
| Traversal.NestedAreasSound | src/Layout.js:208-217 | every element getNestedAreas lists is a leaf at some position of the tree |
| Traversal.NestedAreasComplete | src/Layout.js:208-217 | every leaf of the tree is listed by getNestedAreas |
| Traversal.AreasAreIdents | src/components/Layout.js:220-228 | getNestedWindows lists exactly the leaves whose ids are in the tree |
| Traversal.ContainerPathsSound | src/Layout.js:218-227 | getNestedContainers lists, in order, the container at each position of `ContainerPaths` |
| Traversal.ContainerPathsComplete | src/components/Layout.js:230-240 | getNestedLayers lists every container of the tree |
| Traversal.NestedContainersAre | src/Layout.js:218-227 | getNestedContainers lists only containers |
| Traversal.ContainerParentAt | src/Layout.js:27-29 | with unique ids, getContainerParent finds the container one level above the node, and nothing for the root |
| Traversal.AreaContainerAt | src/Layout.js:48-52 | with unique ids, getAreaContainer finds the parent of the area, and nothing when the area is the root |
| Traversal.AreaContainerAbsent | src/Layout.js:48-52 | an id that names no area is not found by getAreaContainer |
| Traversal.GetAreaFinds | src/Layout.js:53-55 | getArea (and getWindow, src/components/Layout.js:33-35) finds the leaf exactly when its id is in the layout |
| Traversal.ContainerPath | src/Layout.js:59-61 | getContainer returns a container with the id asked for |
| Traversal.ContainerPathFinds | src/components/Layout.js:36-38 | getLayer and getContainer find a container exactly when its id is in the layout |
| Traversal.ContainerPathAt | src/Layout.js:59-61 | with unique ids, getContainer finds the container at that position |
| Traversal.ChainAt | src/Layout.js:30-38 | the ancestor chain lists, nearest first, the container on each prefix of the position |
| Traversal.ContainerAncestors | src/Layout.js:30-38 | the getContainerParent loop returns exactly the ancestor chain of the node |
| TreeKeys.SetKeyAt | src/Layout.js:63 | setting a key changes that container's key and no other |
| TreeKeys.RekeyedKeys | src/Layout.js:62-67 | re-keying hands the next keys in turn to the container and to each ancestor up the chain |
| TreeKeys.RekeyChain | src/Layout.js:62-67 | updateContainerTreeKeys re-keys exactly the container and its ancestors, and changes nothing but keys |
| TreeKeys.SameButKeys | src/Layout.js:62-67 | two layouts that differ only in keys have the same ids and the same per-container invariants |
| AreaLayout.Pair | src/Layout.js:73-74 | the new container's ratios are the percentage and its complement, adding up to 100 |
| AreaLayout.Ordered | src/Layout.js:84 | `insertNewAfter` orders the old and the new node, and neither is lost |
| AreaLayout.AreaIndex | src/Layout.js:95-98 | the index found holds the area, and no earlier child does |
| AreaLayout.SplitAlong | src/Layout.js:99-108 | the new area is spliced in beside the split one, the split slot is cut into `percentage` and the rest, and the total is kept |
| AreaLayout.SplitSite | src/Layout.js:76 | the container the lookup finds holds the area, at an index that has a ratio |
| AreaLayout.AfterSplitIdents | src/Layout.js:72-124 | a split adds the new area, and also the new container unless the split goes along the container |
| AreaLayout.AfterSplitUnique | src/Layout.js:72-124 | with fresh ids, a split keeps every id unique |
| AreaLayout.AfterSplitKeeps | src/Layout.js:72-124 | a split keeps each per-container invariant the layout had: a ratio for each of two children or more, and totals of 100 |
| AreaLayout.SplitAlongAt | src/Layout.js:95-108 | splitting along the parent's direction changes, keys aside, only the parent, which becomes `SplitAlong` of it |
| AreaLayout.SplitAcrossAt | src/Layout.js:109-120 | splitting across puts in the area's slot a new container of the requested direction with `[percentage, 100 - percentage]`, and leaves the parent's ratios untouched |
| AreaLayout.SplitRoot | src/Layout.js:82-92 | splitting the root area, or an id no area has, wraps the whole layout in a new container |
| AreaLayout.AfterSplitAreas | src/Layout.js:72-124 | after a split the areas are the old ones and the new one |
| AreaLayout.MergeIn | src/Layout.js:125-146 | the container loses child `i` and nothing else, and its ratios follow `MergeRatios` |
| AreaLayout.Survivor | src/Layout.js:168-169 | splicing out child `i` of two and popping leaves the other child |
| AreaLayout.MergeRatiosAt | src/Layout.js:125-146 | mergeRatios changes, keys aside, only the container, which becomes `MergeIn` of it |
| AreaLayout.Collapsed | src/Layout.js:166-178 | deleteContainer puts the remaining child in the container's slot of its parent, found by id, or makes it the layout |
| AreaLayout.CollapseAtSlot | src/Layout.js:171-174 | with unique ids, the slot found by id is the container's own |
| AreaLayout.DeleteMerging | src/Layout.js:186-188 | deleting an area that has more than one sibling removes it from its container and merges its ratio |
| AreaLayout.DeleteCollapsing | src/Layout.js:189-194 | deleting an area that has one sibling puts the sibling in the container's place, or makes it the layout |
| AreaLayout.DeleteFails | src/Layout.js:180-183 | deleteArea throws, and changes nothing, exactly when the area is the root or no area has the id |
| AreaLayout.DeleteIdentsAt | src/Layout.js:179-196 | a delete removes the area, and its container when that collapses; no other id goes and none comes |
| AreaLayout.AfterDeleteAreas | src/Layout.js:179-196 | after a delete the areas are the old ones less the deleted one, and ids stay unique |
| AreaLayout.AfterDeleteKeeps | src/Layout.js:179-196 | a delete keeps each per-container invariant: no container is left with fewer than two children, and totals are kept |
| AreaLayout.MergeUndoesSplit | src/Layout.js:99-108 | merging away the area that a split along inserted restores the container, when the new area came after the split one or the split one was first |
| AreaLayout.SplitBeforeThenMerge | src/Layout.js:134-141 | a share split off before an area goes to the predecessor on delete: `[50, 25, 25]` merges to `[75, 25]` |
| AreaLayout.SplitThenDelete | src/Layout.js:72-196 | splitArea with the new area after, then deleteArea of the new area, gives back the layout, keys aside |
| AreaLayout.SplitRootThenDelete | src/Layout.js:82-92 | when the split wrapped the root, the delete gives back exactly the layout |
| AreaLayout.SplitSingleArea | cypress/integration/test.js:51-68 | splitting area 1 vertically at 20 % gives a row of areas 1 and 2 at 20 and 80 |
| AreaLayout.DeleteMiddleArea | cypress/integration/test.js:484-501 | deleting the middle of areas at 30, 30 and 40 leaves 60 and 40 |
| AreaLayout.DeleteToSingleArea | cypress/integration/test.js:503-515 | deleting one of the two root areas leaves the other as the layout |
| AreaLayout.RatioUpdateFails | src/Layout.js:68-71 | updateContainerRatio fails exactly when no container has the id |
| AreaLayout.RatioUpdateAt | src/Layout.js:68-71 | the container updated is the one with that id, and nothing outside it changes |
| AreaLayout.OverwriteSum | src/Layout.js:70 | overwriting with ratios of the same total keeps the total |
| AreaLayout.AfterRatioUpdateKeeps | src/Layout.js:68-71 | an update changes no id, keeps a ratio for every child, and keeps one per child when it writes no more than there are |
| AreaLayout.AfterRatioUpdateTotal | src/Layout.js:68-71 | an update keeps every total at 100 when the new ratios add up to the ones they overwrite |
| AreaEngine.Layout.constructor | src/Layout.js:4-11 | the component starts from a valid layout |
| AreaEngine.Layout.UpdateContainerTreeKeys | src/Layout.js:62-67 | the ancestor walk leaves exactly `Rekey` of the layout |
| AreaEngine.Layout.SplitArea | src/Layout.js:72-124 | returns the new area's id, keeps the layout valid, and leaves exactly `AfterSplit` |
| AreaEngine.Layout.MergeRatios | src/Layout.js:125-146 | leaves `MergeRatiosAt`, and returns the removed child at index 0 and the predecessor's old ratio otherwise |
| AreaEngine.Layout.DeleteContainer | src/Layout.js:166-178 | leaves exactly `Collapsed` |
| AreaEngine.Layout.DeleteArea | src/Layout.js:179-196 | keeps the layout valid; it throws exactly when `AfterDelete` fails, and leaves the layout unchanged in that case and `AfterDelete` otherwise |
| AreaEngine.Layout.UpdateContainerRatio | src/Layout.js:68-71 | keeps the layout valid, fails exactly when no container has the id, and leaves `AfterRatioUpdate` otherwise |
| WindowLayout.SortByConsistent | src/components/Layout.js:242 | sortBy is antisymmetric and transitive, and orders by the field |
| WindowLayout.Insert | src/components/Layout.js:242 | insertion adds exactly the element |
| WindowLayout.InsertSorted | src/components/Layout.js:242 | insertion into a sorted list keeps it sorted |
| WindowLayout.Sort | src/components/Layout.js:20 | `sort(sortBy(f))` gives a sorted permutation |
| WindowLayout.MaxField | src/components/Layout.js:19-27 | the largest field is at least every field, and some element holds it |
| WindowLayout.SortedLast | src/components/Layout.js:20 | the last element of any sorted permutation holds the largest field |
| WindowLayout.NextOfMax | src/components/Layout.js:19-27 | an allocator hands out one more than the largest value in use, and fails on an empty list |
| WindowLayout.NextWindowIdFresh | src/components/Layout.js:19-21 | getNextWindowId returns an id above every window id in use |
| WindowLayout.NextLayerIdFresh | src/components/Layout.js:22-24 | getNextLayerId fails exactly on a single-window layout, and otherwise returns an id above every layer id |
| WindowLayout.NextLayerKeyAbove | src/components/Layout.js:25-27 | getNextLayerKey fails exactly on a single-window layout, and otherwise returns a key above every layer key |
| WindowLayout.NextOrAbove | src/components/Layout.js:19-27 | the corrected allocator agrees with the source's on a non-empty list, starts at 1 on an empty one, and is always fresh |
| WindowLayout.WindowLayerPath | src/components/Layout.js:28-32 | getWindowLayer returns a layer that has a child, window or layer, with that id, and returns nothing exactly when no layer of the tree has such a child |
| WindowLayout.WindowLayerPathFirst | src/components/Layout.js:29-31 | `find` over the listed layers: the layer returned comes, in pre-order, no later than any layer with a child of that id |
| WindowLayout.WindowIndex | src/components/Layout.js:166-167 | the untyped `find` and `indexOf` of deleteWindow, and of splitWindow (src/components/Layout.js:87-90): the index found holds a child with that id, window or layer, and no earlier child does |
| WindowLayout.WindowLayerAgrees | src/components/Layout.js:28-32 | when no layer below the root has the id, getWindowLayer finds what the typed lookup of the area engine finds |
| WindowLayout.WindowIndexAgrees | src/components/Layout.js:87-90 | when no layer below the root has the id, the untyped `find` in the window's layer picks the window itself |
| WindowLayout.RekeyLayer | src/components/Layout.js:39-46 | updateLayerTreeKeys changes nothing but keys |
| WindowLayout.RekeyLayerKeys | src/components/Layout.js:39-46 | the layer takes a key above every layer key, and no other key changes |
| WindowLayout.SplitWindowAsWrittenFails | src/components/Layout.js:75-84 | a split throws a TypeError exactly when the layout is a single window |
| WindowLayout.SplitWindowAsWrittenKeeps | src/components/Layout.js:55-121 | a split that succeeds keeps ids unique and every per-container property the layout had: two children or more, one ratio per child, totals of 100 |
| WindowLayout.SplitAlongHalves | src/components/Layout.js:92-98 | a split along the layer halves the window's ratio and puts the new window right after it |
| WindowLayout.MergeLayer | src/components/Layout.js:122-143 | mergeRatios changes, keys aside, only the layer, which loses child `i` and merges its ratio |
| WindowLayout.DeleteLayerOrMerge | src/components/Layout.js:144-161 | with two children, the remaining child becomes the whole layout |
| WindowLayout.DeleteWindowCollapses | src/components/Layout.js:144-170 | wherever the two-child layer sits, deleteWindow leaves only its remaining child |
| WindowLayout.MergeLayerKeeps | src/components/Layout.js:122-143 | mergeRatios keeps ids unique and every per-container property: two children or more, one ratio per child, totals of 100 |
| WindowLayout.DeleteWindowAsWrittenKeeps | src/components/Layout.js:162-170 | a delete keeps ids unique and every per-container property: no layer is left with fewer than two children, and ratio counts and totals are kept |
| WindowLayout.RatioUpdateAsWrittenFails | src/components/Layout.js:47-54 | the update throws exactly when no layer has the id and the list is not empty |
| WindowLayout.RatioUpdateAsWrittenKeeps | src/components/Layout.js:47-54 | the count of ratios is kept; fewer new ratios than old land at the end, after the old tail; ids and invariants are kept |
| WindowLayout.SplitWindowFresh | src/components/Layout.js:57-80 | the ids and key the corrected split uses are the source's own when it has them, and are fresh |
| WindowLayout.SplitWindowKeeps | src/components/Layout.js:55-121 | the corrected split keeps ids unique and every per-container property: two children or more, one ratio per child, totals of 100 |
| WindowLayout.SplitThenDeleteWindow | src/components/Layout.js:55-170 | the corrected split, then the corrected delete of the new window, gives back the layout, keys aside |
| WindowLayout.SplitWindowAgrees | src/components/Layout.js:55-121 | where the layout has a layer and no layer below the root has the id, the source's split equals the corrected one, keys aside |
| WindowLayout.SplitWindowAsWrittenAt | src/components/Layout.js:85-118 | the source's split of a window whose layer sits at `cp` splits in that layer with the allocators' ids |
| WindowLayout.SplitWindowAt | src/components/Layout.js:85-118 | the corrected split of a window whose layer sits at `cp` splits in that layer, along or across |
| WindowLayout.DeleteWindowThrowsRoot | src/components/Layout.js:163-165 | for any ids, deleteWindow throws "root window" exactly when no layer has a child with that id, and then leaves the layout unchanged |
| WindowLayout.DeleteWindowMissing | src/components/Layout.js:163-165 | where no layer below the root has the id, the source throws "root window" exactly when the corrected delete fails, and leaves the layout unchanged |
| WindowLayout.DeleteWindowMergeAgrees | src/components/Layout.js:144-146 | where no layer below the root has the id and the layer keeps two children or more, the source's delete equals the corrected one, keys aside |
| WindowLayout.DeleteWindowRootAgrees | src/components/Layout.js:148-159 | where no layer below the root has the id and the window's layer is the root, the source's delete equals the corrected one, and throws exactly when one window is left |
| WindowLayout.RootLayerSharesId | src/components/Layout.js:148-159 | the root layer 1 holding windows 1 and 2 shares its id with window 1, and deleting window 1 still goes as the corrected delete does |
| WindowLayout.SplitSingleWindow | src/components/Layout.js:75-84 | the single-window layout cannot be split as written; corrected, it becomes a row of the window and a new one |
| WindowLayout.DeleteLastButOne | src/components/Layout.js:162-170 | deleting one of two windows of the root layer throws a TypeError as written, and succeeds corrected |
| WindowLayout.WindowMistakenForLayer | src/components/Layout.js:166-167 | in the window's own layer, a sibling layer with the window's id is taken for the window: that layer is removed, and the delete throws |
| WindowLayout.WindowLayerMistaken | src/components/Layout.js:28-32 | a layer that holds a layer with the window's id is taken for the window's layer: the wrong layer is removed, and the window survives as part of the layout |
| WindowLayout.CollapseLosesLayout | src/components/Layout.js:149-159 | the collapse of a nested layer makes the remaining child the whole layout |
| WindowLayout.CollapseDisagrees | src/components/Layout.js:149-159 | on the nested-collapse input no layer has the window's id, yet the source's delete and the corrected one leave different layouts, keys aside |
| WindowLayout.LayerAncestorsAsWritten | src/components/Layout.js:195-203 | the loop ends exactly when the layer has no parent, or its parent has none, and otherwise lists the parent without end |
| WindowLayout.LayerAncestors | src/components/Layout.js:195-203 | the corrected loop lists the chain of parents, each the parent of the one before |
| WindowEngine.Layout.constructor | src/components/Layout.js:4-9 | the component starts from a valid layout |
| WindowEngine.Layout.UpdateLayerTreeKeys | src/components/Layout.js:39-46 | leaves exactly `RekeyLayer` of the layout |
| WindowEngine.Layout.SplitWindow | src/components/Layout.js:55-121 | keeps the layout valid, throws exactly when `SplitWindowAsWritten` fails, and otherwise leaves its layout |
| WindowEngine.Layout.MergeRatios | src/components/Layout.js:122-143 | leaves `MergeLayer`, and returns the removed child at index 0 and the predecessor's old ratio otherwise |
| WindowEngine.Layout.DeleteLayerOrMergeRatio | src/components/Layout.js:144-161 | leaves exactly `DeleteLayerOrMerge` |
| WindowEngine.Layout.DeleteWindow | src/components/Layout.js:162-170 | keeps the layout valid, and throws and leaves what `DeleteWindowAsWritten` describes |
| WindowEngine.Layout.UpdateContainerRatio | src/components/Layout.js:47-54 | keeps the layout valid, throws exactly when `RatioUpdateAsWritten` fails, and otherwise leaves its layout |

## Left out

- Rendering is not modelled. This covers `render`, `makeContainer`, `makeArea`, `makeWindowContainer`, `makeWindow`, `getDOMWindowId`, the Vue props, `$emit` and `$refs`: they build virtual DOM and change no layout.
- The area engine's id and key allocator (`getNextAreaId`, `getNextContainerId`, `getNextContainerKey`, src/Layout.js:39-47) is a separate object that is not part of this model. Its ids are parameters that must be fresh, and its keys are a stream `keys`, used from the front.
- Ratios are JavaScript numbers in the source and exact reals here. Floating-point rounding of `percentage / 100 * ratio` and of ratio sums is not modelled.
- Layouts that break the invariant (a container with fewer than two children or a missing ratio) are not modelled. The source does not check for them, and its `ratios[i]` then reads `undefined`; the operations here require the invariant.
- DeleteWindowMissing: stated only where no layer below the root has the window's id. Where one does, the source can take that layer for the window (see "## Findings") and the two deletes differ; DeleteWindowThrowsRoot states the source's "root window" condition for every layout.
- DeleteWindowMergeAgrees: stated only where no layer below the root has the window's id, for the same reason.
- DeleteWindowRootAgrees: stated only where no layer below the root has the window's id; on the input of the third finding the window's layer is the root, yet the source removes a layer instead.
- Traversal.GetArea: the model takes `this.areas` in getArea (src/Layout.js:53-55) to be the computed list of nested areas (src/Layout.js:16-18). The same name is also injected (src/Layout.js:6), and in Vue 2 the injected object takes that name on the instance, so getArea would search the id allocator, which is not part of this model. The window component's getWindow (src/components/Layout.js:33-35) searches its own computed list, and the model gives both the same meaning.
- Object identity is modelled as position. The source's `includes(container)` and `indexOf` compare references; with unique ids, the model's comparison by value finds the same node.
- The window component searches its cached `windows` and `layers` lists, and `getNext*` sorts them in place. The order `find` searches in then changes from pre-order to the sort order. The model searches in pre-order. With unique ids a lookup by id finds the same node either way. When two layers match, as in the second finding, which one is found can depend on that order.
- `WindowEngine.Layout.SplitWindow`: `direction` defaults to `"row"` in the source. The model takes the direction as a parameter, and the unused `e` parameter is dropped.
- `console.log` in splitWindow and the commented-out content-window map are left out.
- Layer `parent` links are never set by the source. Apart from `WindowLayout.LayerAncestorsAsWritten` and `WindowLayout.LayerAncestors`, which take a parent map, the model has no parent links.
- `WindowLayout.LayerAncestorsAsWritten` and `WindowLayout.LayerAncestors`: the loop is bounded by `fuel`, because the source's loop does not end when a grandparent exists.
- The cypress scenarios beyond split, delete and the 20/80 split depend on mouse dragging and the DOM, and are not modelled.

## Findings

| source | as written | input that shows it | evidently intended | confidence | as-written member | corrected member |
|---|---|---|---|---|---|---|
| src/components/Layout.js:19-27, 79-80 | getNextLayerId and getNextLayerKey read `[length - 1].id` of an empty list, so the split throws a TypeError | a layout of the single window `w`, `splitWindow(w)` | a row layer `1` with key `1` holding `w` and window `w + 1` | not executed | WindowLayout.SplitSingleWindow | WindowLayout.SplitWindowKeeps |
| src/components/Layout.js:28-32 | getWindowLayer does not check the child's type, so a layer that has a child layer with the window's id is taken for the window's layer | layer 1 holding layer 2 (windows 1, 3) and layer 3 (windows 2, 4), `deleteWindow(2)`: layer 1 is found, layer 2 is removed and layer 3 becomes the layout | window 2 removed, and layer 1 left holding layer 2 and window 4 | not executed | WindowLayout.WindowLayerMistaken | WindowLayout.WindowLayerAgrees |
| src/components/Layout.js:166-167 | deleteWindow's `find` in the layer does not check the child's type, so a sibling layer whose id equals the window's is taken for the window | layer 1 holding layer 2 (windows 1, 3) and window 2, `deleteWindow(2)`: layer 2 is removed, window 2 becomes the layout and re-keying throws | window 2 removed, and layer 2 left as the layout | not executed | WindowLayout.WindowMistakenForLayer | WindowLayout.WindowIndexAgrees |
| src/components/Layout.js:149-159 | no layer has a `parent`, so collapsing a nested layer makes its remaining child the whole layout | layer 1 holding window 4 and layer 2 (window 5, layer 3 of windows 6, 7), `deleteWindow(5)` | layer 1 holding window 4 and layer 3 | not executed | WindowLayout.CollapseLosesLayout | AreaLayout.DeleteCollapsing |
| src/components/Layout.js:195-203 | the loop pushes `layer.parent` and reads `layer.parent` again, so it never moves up and never ends once a grandparent exists | parents 3 → 2 → 1, `getLayerAncestors(3)` | `[2, 1]` | not executed | WindowLayout.LayerAncestorsAsWritten | WindowLayout.LayerAncestors |
| src/components/Layout.js:162-170 | after deleting from the two-window root layer, updateLayerTreeKeys calls getNextLayerKey on a layout with no layer, and throws | layer 1 holding windows 1, 2, `deleteWindow(2)` | window 1 as the layout, and no error | not executed | WindowLayout.DeleteLastButOne | WindowLayout.DeleteWindowRootAgrees |
