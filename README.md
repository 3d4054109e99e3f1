# Part tree of a Qt/VTK CAD viewer, in Dafny

The viewer shows a hierarchy of 3D parts in a Qt tree view and renders each part
on screen and in VR. This project models the part tree behind the tree view
(`ModelPart`), the index adapter that exposes it to the view (`ModelPartList`),
and the copy of visual attributes from a part's on-screen actor to a VR actor.

- `values.dfy` (`Values`): column values, a `QVariant` that is empty or holds text.
- `lists.dfy` (`Lists`): `QList::indexOf`, which `row()` relies on.
- `actors.dfy` (`Actors`): an actor reduced to its six shared attributes (colour,
  opacity, position, orientation, scale, visibility), held as opaque values.
- `model_part.dfy` (`ModelParts`): the `ModelPart` class and the tree invariant
  `IsTree`. Children are the owning edges, each parent pointer leads back to the
  part listing the child, no list holds a part twice, and a depth map makes the
  tree acyclic.
  The repository has three copies of `ModelPart` (`src/`, top level,
  `changes/`) whose tree and column code is identical, so that code is modelled
  once. Where the copies differ, each variant has its own member. Construction
  is `constructor` for `src/` and `WithActor` for the other two. The VR copy is
  `GetVRActor`/`LinkProperties` for `changes/` (six attributes) and
  `GetVRActorMaterial`/`LinkMaterial` for the top level (the material: colour and
  opacity).
- `model_part_list.dfy` (`ModelPartLists`): `QModelIndex`, roles, flags and the
  `ModelPartList` class, with round-trip lemmas between `index` and `parent`.
- `scenario.dfy` (`Scenario`): the start-up tree of the main window (3 top-level
  parts with 5 parts each, 19 parts in all), and a VR actor going stale.

Notes on fidelity:
- A `QModelIndex` made by the model with a negative row or column is invalid, as
  in Qt. An index made by the model never carries a null part.
- `appendChild` on the list returns an index of the new part whose row is always 0.
  The part's real row is the old child count, and the contract states both.
- When the parent index is invalid, `appendChild` on the list overwrites the
  caller's index with an index of the root. Calling `parent` on that index
  dereferences the root's null parent pointer. `Parent` therefore requires
  that its index does not point at the root.
- The code has no re-parenting check. `AppendChild` requires that the item is not
  already in this list or in its parent's list, instead of reporting an error.
- `getVRActor` builds a new actor on every call; nothing caches it. The model
  follows the code. `Scenario.VRActorDoesNotFollow` shows the consequence: a VR
  actor obtained earlier does not follow later changes to the part.
- The base-class `flags` of Qt answers "selectable and enabled" for a valid index.
  `Flags` uses that value.

## Model

| member | source | states |
|---|---|---|
| `Lists.IndexOf` | src/ModelPart.cpp:96 | `indexOf` gives the first position holding the element, or -1 exactly when the element is absent |
| `Lists.IndexOfAppend` | src/ModelPart.cpp:39-40 | after an append, the new element is found at the old length and every earlier element keeps its position |
| `Values.FlagText` | src/mainwindow.cpp:133-135 | boolean columns are the literal strings "true" and "false", and the text is "true" exactly for true |
| `ModelParts.ModelPart.constructor` | src/ModelPart.cpp:23-27 | a new part stores the given columns and parent and has no children and no actor; its visibility flag is left uninitialised |
| `ModelParts.ModelPart.WithActor` | ModelPart.cpp:9-20 | a new part is visible and childless, with its own yellow, visible actor (changes/ModelPart.cpp:11-22 is the same) |
| `ModelParts.ModelPart.AppendChild` | src/ModelPart.cpp:35-41 | the item becomes the last child and this part its parent; childCount grows by one, earlier children keep their rows, and the item's row is childCount-1 |
| `ModelParts.ModelPart.Child` | src/ModelPart.cpp:44-50 | a child is returned exactly for rows in [0, childCount), and it is the child stored in that row; otherwise null |
| `ModelParts.ModelPart.ChildCount` | src/ModelPart.cpp:52-56 | the number of children, which is exactly the set of rows that `child` answers |
| `ModelParts.ModelPart.ColumnCount` | src/ModelPart.cpp:59-63 | the number of column values; `data` is empty for every column outside it |
| `ModelParts.ModelPart.Data` | src/ModelPart.cpp:65-74 | the stored value for an in-range column, an empty value otherwise |
| `ModelParts.ModelPart.Set` | src/ModelPart.cpp:77-84 | an in-range column gets the new value and no other column changes; out of range nothing changes; the column count never changes |
| `ModelParts.ModelPart.SetData` | src/ModelPart.cpp:162-169 | true exactly for an in-range column, which then reads back the new value while every other column keeps its value; false with no change otherwise |
| `ModelParts.ModelPart.ParentItem` | src/ModelPart.cpp:87-89 | the stored parent pointer, null for the root (`parent()` at changes/ModelPart.cpp:75-78 is the same); `ParentOfChild` shows it leads back to the part that lists this one |
| `ModelParts.ModelPart.Visible` | src/ModelPart.cpp:136-139 | the stored visibility flag, which `SetVisible` sets and reads back |
| `ModelParts.ModelPart.Row` | src/ModelPart.cpp:92-98 | 0 without a parent; otherwise the first position of this part in its parent's list, or -1 when that list does not hold it |
| `ModelParts.ModelPart.SetVisible` | src/ModelPart.cpp:129-139 | `visible()` then returns the given flag, and an existing actor takes the same visibility with its other attributes unchanged |
| `ModelParts.ModelPart.LoadSTL` | src/ModelPart.cpp:141-156 | loading geometry records the file, creates a new yellow, visible actor and makes the part visible |
| `ModelParts.ModelPart.GetVRActor` | changes/ModelPart.cpp:87-107 | a brand-new actor on every call, whose six attributes equal the part's actor's at call time |
| `ModelParts.ModelPart.LinkProperties` | changes/ModelPart.cpp:110-134 | with both actors present, the part's actor ends with all six attributes equal to the given actor's; with either missing nothing changes |
| `ModelParts.ModelPart.GetVRActorMaterial` | ModelPart.cpp:164-180 | a brand-new actor on every call, carrying the part actor's colour and opacity and a new actor's defaults otherwise |
| `ModelParts.ModelPart.LinkMaterial` | ModelPart.cpp:183-197 | with both actors present, the part's actor takes over the given actor's colour and opacity and keeps its other attributes; otherwise nothing changes |
| `ModelParts.AppendToTree` | src/ModelPart.h:55-66 | appending a part that is not yet in the tree keeps it a strict tree, with the new part one level below its parent |
| `ModelParts.ChildAtOwnRow` | src/ModelPart.h:109-113 | in a tree, every non-root part has a parent that holds it at the part's own row: `parent.child(row()) == this` |
| `ModelParts.ParentOfChild` | changes/ModelPart.cpp:75-78 | in a tree, the parent pointer of every child leads back to the part that lists it |
| `ModelParts.OwnedOnce` | src/ModelPart.cpp:30-32 | in a tree, a part is held by exactly one child list and in one row of it, so the children are the owning edges |
| `ModelParts.AncestorsReachRoot` | src/ModelPart.cpp:87-89 | in a tree, no part is its own ancestor, and following parent pointers from any part reaches the root |
| `ModelPartLists.ModelPartList.constructor` | src/ModelPartList.cpp:20-25 | the list starts as a lone root holding the four headers "Part", "Visible?", "Shrink?", "Clip?" |
| `ModelPartLists.ModelPartList.ColumnCount` | src/ModelPartList.cpp:41-44 | the column count is the root's, whatever the parent index |
| `ModelPartLists.ModelPartList.ColumnCountIsHeader` | src/ModelPartList.cpp:24 | the column count is 4 for every parent index |
| `ModelPartLists.ModelPartList.RowCount` | src/ModelPartList.cpp:149-160 | 0 when the parent's column is above 0; the root's child count for an invalid parent; otherwise the indexed part's child count |
| `ModelPartLists.ModelPartList.Index` | src/ModelPartList.cpp:109-122 | when `hasIndex` holds, a valid index carrying the given row and column and the parent's child in that row; when it fails, whatever the parent, the root's child in that row, valid exactly for the root's rows; under an invalid parent, an index exactly for the root's rows |
| `ModelPartLists.ModelPartList.CheckedIndex` | src/ModelPartList.cpp:109-122 | valid exactly when `hasIndex` holds, and then the parent's child in that row with the given row and column; the invalid index otherwise |
| `ModelPartLists.ModelPartList.Parent` | src/ModelPartList.cpp:130-141 | invalid for an invalid index and for top-level parts; otherwise a valid index in column 0 pointing at the parent, whose row is where the grandparent holds it |
| `ModelPartLists.ModelPartList.NodeIndex` | src/ModelPartList.cpp:140 | the index `parent` builds for a part: that part, at its own row, in column 0 |
| `ModelPartLists.ModelPartList.ParentOfCheckedIndex` | src/ModelPartList.cpp:130-141 | `parent(index(row, column, p)) == p` for the invalid index and for every index `parent` itself builds, whenever `hasIndex` admits the row and column |
| `ModelPartLists.ModelPartList.CheckedIndexOfParent` | src/ModelPartList.cpp:109-122 | every part below the root is found again by `index` from its own row and the index of its parent |
| `ModelPartLists.ModelPartList.IndexFallsBackToRoot` | src/ModelPartList.cpp:112-119 | as written, asking a childless first top-level part for its first child answers that part's own index, where the checked lookup answers invalid |
| `ModelPartLists.ModelPartList.Data` | src/ModelPartList.cpp:53-71 | empty unless the index is valid, the role is display and the column is in range; then the part's value in that column |
| `ModelPartLists.ModelPartList.Flags` | src/ModelPartList.cpp:79-84 | no flags exactly for an invalid index; never editable |
| `ModelPartLists.ModelPartList.HeaderData` | src/ModelPartList.cpp:94-99 | the root's value for the section, only for the horizontal header and the display role; empty otherwise |
| `ModelPartLists.ModelPartList.AppendChild` | src/ModelPartList.cpp:178-201 | exactly one new part carrying the data becomes the last child of the indexed part (the root for an invalid index), the tree invariant is kept, the returned index points at it with row 0, and the caller's invalid index becomes an index of the root |
| `ModelPartLists.ModelPartList.SetData` | src/ModelPartList.cpp:211-227 | true exactly for a valid index, the edit role and an in-range column; only that column of that part changes, and the tree invariant is kept |
| `Scenario.BuildDefaultTree` | mainwindow.cpp:27-41 | the start-up tree is a strict tree of 19 parts: 3 top-level parts with 5 children each, and every bottom-level row lies in [0, 5) |
| `Scenario.AppendItems` | mainwindow.cpp:35-40 | appending the five items to a childless top-level part keeps the tree and gives it exactly five children |
| `Scenario.BottomRowsBelowFive` | mainwindow.cpp:27-41 | when every top-level part has five children, every part two levels down has a row in [0, 5) |
| `Scenario.VRActorDoesNotFollow` | mainwindow.cpp:89-93 | after the main window links a part's material and takes its VR actor, hiding the part (`setVisible`, ModelPart.cpp:127-140) leaves that VR actor visible |

## Findings

| source | as written | input that shows it | evidently intended | confidence | as-written member | corrected member |
|---|---|---|---|---|---|---|
| src/ModelPartList.cpp:112-119 | when `hasIndex` fails for a valid parent index, the lookup falls back to the root and returns the root's child in that row | the root's first child P has no children; `index(0, 0, index of P)` returns P's own index | an invalid index whenever `hasIndex` fails, as the item-model contract of Qt requires | medium; not executed | `ModelPartLists.ModelPartList.IndexFallsBackToRoot` | `ModelPartLists.ModelPartList.CheckedIndex` |

## Left out

- Colour: `setColour` and the `getColour` getters divide by 255.0 and truncate on the way back. This is floating point, so no integer round trip is claimed. In `src/` they are empty placeholders.
- Geometry: the STL reader, the mapper and the shrink and clip filters are VTK library calls. The top-level and `changes/` versions of `loadSTL` only rewire the reader and mapper of the existing actor, so they are not modelled. `LoadSTL` models the `src/` version and records only the file name.
- `propagateVisibility`, `propagateClip`, `propagateShrink`, `propagateColour`, `applyShrink`, `applyClip`: declared in src/ModelPart.h but defined nowhere.
- The VR render thread: a `QThread` loop with a mutex, a wait condition and sleeps. It is concurrency plus pass-throughs to VTK.
- Destructors: `qDeleteAll` frees the subtree. The model keeps only its consequence for the structure: children are the owning edges (`OwnedOnce`).
- `getActor`, `getRootItem`: plain field reads. The model reads the fields `actor` and `rootItem` directly. `parentItem`/`parent` is modelled as `ParentItem`.
- The VR mapper of a new VR actor and its input connection are not modelled.
- The top-level `setVisible` also sets the visibility of a newly created VR actor that nothing keeps. It has no lasting effect, so `SetVisible` omits it.
- `SetMaterial` is modelled as taking over the colour and opacity, the property-level attributes of the model. The rest of the VTK property is not modelled.
- Qt's change notifications (`beginInsertRows`, `endInsertRows`, `layoutChanged`, `dataChanged`) only inform views. The `!item` check in `setData` cannot fail for indexes the model makes.
- `ModelPartLists.ModelPartList.Parent`: requires that the index does not point at the root, because the source dereferences the root's null parent pointer there.
- Mutations made through the root pointer, as the main window does, bypass the list's bookkeeping. `Scenario` therefore tracks the tree by itself through `AppendToTree`.
- The main window, the dialogs, `main.cpp`, generated UI code and the vendored VTK headers are not part of this model.
