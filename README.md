# Tree store — a verified model

This project models the in-memory hierarchical record store of the tree table
application: class `Index` in `src/utils/TreeStore/index.ts`. The store keeps
a flat, ordered array of items. Each item has an `id`, a `parent` and a label.
A `parent` is the id of another item, or null for a root. Beside the array the
store keeps an id-to-item map. The map is cleared and refilled every time the
array is replaced.

The store offers:

- point lookup;
- the direct children of an id;
- a stack-based walk over all descendants;
- the ancestor chain of an item;
- append, cascading delete, and in-place replace.

Files:

- `types.dfy` (module `Types`): the records. An id is `Num(int)` or
  `Str(string)`. Ids are compared strictly, so `Num(2) != Str("2")`. A null
  parent is `None`. The label lives in the field `title`, because `label` is a
  Dafny keyword.
- `store_model.dfy` (module `StoreModel`): reference definitions over the item
  array, and the lemmas that state what they mean.
  - `Lookup` answers what the rebuilt map answers: the last item with the id.
  - `Children` is the children filter.
  - `Subtrees` and `AllChildren` give the order the stack walk emits in.
  - `Ancestors` and `AllParents` give the ancestor chain.
  - `Without` and `RemovalIds` describe the cascading delete.
  - `FindIndex` is the search the update runs.
  - `Acyclic` says that some rank on ids strictly drops from every parent id to
    its child. The two walks and the removal are modelled only on acyclic arrays.
- `descendants.dfy` (module `Descendants`): an independent, upward notion of
  descent (`DescendsFrom`). It proves that on an acyclic array with unique ids
  the walk emits exactly the descendants, each once.
- `tree_store.dfy` (module `TreeStore`): class `Index`.
  - Its fields are `items`, a `seq<Item>`, and `itemsMapping`, a
    `map<Id, Item>`.
  - `Valid()` ties the map to the array.
  - The loops of `buildIdMap`, `getAllChildren` and `getAllParents` are
    `while`/`for` loops with invariants. Each is proved against the reference
    functions.
- `fixture.dfy` (module `StoreFixture`): the store's test data and the answers
  its tests expect, proved on the model. This includes the exact walk order
  `[6, 5, 4, 8, 7]` below `'2'`.

`removeItem` deletes every item that descends from `id`, even when `id` itself
does not resolve to an item. For example, items whose parent is a dangling id
are removed when that dangling id is given. The model keeps this behaviour:
`RemovalIds` takes the walk's ids whether or not the lookup succeeds.

## Model

| member | source | states |
|---|---|---|
| StoreModel.LastIndexOf | src/utils/TreeStore/index.ts:11-16 | the position it returns holds an item with the id and no later position does; -1 when no item has it |
| StoreModel.Lookup | src/utils/TreeStore/index.ts:31-33 | the answer is absent exactly when no item has the id; otherwise it is an item of the array carrying that id |
| StoreModel.IdMap | src/utils/TreeStore/index.ts:11-16 | the map the loop builds files every entry under its own id and holds only items of the array; `IdMapAgrees` and `IdMapKeys` say it answers every id as `Lookup` does |
| StoreModel.IdMapAgrees | src/utils/TreeStore/index.ts:11-16 | the map rebuilt in array order has an entry for an id exactly when a lookup finds it, and the entry is the last item with that id |
| StoreModel.IdMapKeys | src/utils/TreeStore/index.ts:11-16 | the rebuilt map's keys are exactly the ids present in the array, so no stale entry survives a rebuild |
| StoreModel.LookupUnique | src/utils/TreeStore/index.ts:31-33 | with unique ids every item is found under its own id |
| StoreModel.FindIndex | src/utils/TreeStore/index.ts:104 | the position it returns holds the id and no earlier position does; -1 exactly when no item has the id |
| StoreModel.Children | src/utils/TreeStore/index.ts:35-40 | an item is a child of `id` exactly when it is in the array and its parent is `id`; the result is no longer than the array |
| StoreModel.ChildrenConcat | src/utils/TreeStore/index.ts:36-39 | filtering distributes over concatenation, so children keep their array order |
| StoreModel.ChildrenUnique | src/utils/TreeStore/index.ts:35-40 | filtering an array without repeated ids yields none |
| StoreModel.Subtrees | src/utils/TreeStore/index.ts:46-54 | the walk over a stack emits every stacked item, and everything else it emits is an item of the array that has a parent; `SubtreesPop` gives its last-in-first-out order and `SubtreesMembers` its members |
| StoreModel.AllChildren | src/utils/TreeStore/index.ts:42-57 | the walk below `id` emits every direct child of `id`, and only items of the array that have a parent; `WalkExactlyOnce` says it emits exactly the descendants, each once |
| StoreModel.SubtreesConcat | src/utils/TreeStore/index.ts:46-54 | the walk over a stack `a + b` emits the walk over the top part `b` first, then that over `a` |
| StoreModel.SubtreesPop | src/utils/TreeStore/index.ts:47-52 | one pop-emit-push step: the walk over a stack is its top item, then the walk over the rest with the top's children pushed |
| StoreModel.SubtreesMembers | src/utils/TreeStore/index.ts:42-57 | an item is emitted from a stack exactly when it is one of the stacked items or emitted below one of them |
| StoreModel.AllChildrenBelow | src/utils/TreeStore/index.ts:42-57 | everything the walk below `id` emits is an item of the array ranked strictly below `id` |
| StoreModel.AllChildrenTransitive | src/utils/TreeStore/index.ts:42-57 | what is emitted below an emitted item is also emitted below `id` |
| StoreModel.ChildIsDescendant | src/utils/TreeStore/index.ts:44 | every direct child of `id` is emitted by the walk below `id` |
| StoreModel.Ancestors | src/utils/TreeStore/index.ts:70-79 | the chain ends with the item it starts from and begins with a root or with an item whose parent does not resolve; `AncestorsChain` and `AncestorChainUnique` characterise it fully |
| StoreModel.AllParents | src/utils/TreeStore/index.ts:59-82 | the answer is empty exactly when `id` does not resolve, and otherwise ends with the item `id` resolves to; `AllParentsShape` gives the rest |
| StoreModel.AncestorsStep | src/utils/TreeStore/index.ts:71-78 | when the parent resolves, the chain of an item is the chain of its parent followed by the item |
| StoreModel.AncestorsTop | src/utils/TreeStore/index.ts:70-74 | a root, or an item whose parent does not resolve, is its own whole chain |
| StoreModel.AncestorsChain | src/utils/TreeStore/index.ts:59-82 | the chain ends at the item, each element's parent id resolves to the element before it, and the first element is a root or has an unresolved parent |
| StoreModel.AncestorChainUnique | src/utils/TreeStore/index.ts:59-82 | any sequence with those chain properties is the chain the store builds |
| StoreModel.AllParentsShape | src/utils/TreeStore/index.ts:59-82 | the answer is empty exactly when the id does not resolve; otherwise it is the item's ancestor chain, and a root yields only itself |
| StoreModel.Without | src/utils/TreeStore/index.ts:100 | an item survives exactly when its id is not one of the removed ids; the result is no longer than the array |
| StoreModel.WithoutConcat | src/utils/TreeStore/index.ts:100 | removal distributes over concatenation, so survivors keep their relative order |
| StoreModel.WithoutNothing | src/utils/TreeStore/index.ts:98 | removing no ids leaves the array as it was |
| StoreModel.RemovalIds | src/utils/TreeStore/index.ts:88-96 | the removed ids include `id` when it resolves and the id of every direct child of `id`, and every removed id belongs to an item of the array; `RemovalCascades` says what the removal leaves |
| StoreModel.AcyclicSubset | src/utils/TreeStore/index.ts:100 | keeping only some of the items of an acyclic array, in any order, leaves an acyclic array |
| StoreModel.WithoutMisses | src/utils/TreeStore/index.ts:100 | after the filter a removed id does not resolve, and neither does an id that did not resolve before |
| StoreModel.RemovalGone | src/utils/TreeStore/index.ts:87-101 | after the delete neither `id` nor the id of any descendant resolves |
| StoreModel.RemovalNoOrphans | src/utils/TreeStore/index.ts:87-101 | after the delete no remaining item names a removed id as its parent |
| StoreModel.RemovalKeepsNoOrphan | src/utils/TreeStore/index.ts:87-101 | a surviving item's parent is never one of the removed ids |
| StoreModel.RemovalCascades | src/utils/TreeStore/index.ts:87-101 | after the delete neither `id` nor any descendant resolves, every item with another id survives, no survivor's parent is a removed id, and what remains is still acyclic |
| StoreModel.LookupAppend | src/utils/TreeStore/index.ts:83-85 | after an append the new item's id resolves to it and every other id resolves as before |
| StoreModel.ChildrenAppend | src/utils/TreeStore/index.ts:83-85 | after an append the new item is the last child of its parent and every other id's children are unchanged |
| StoreModel.AppendFound | src/utils/TreeStore/index.ts:83-85 | the lookup and children facts of an append, for all ids at once |
| StoreModel.SameIdsSameLastIndex | src/utils/TreeStore/index.ts:107-108 | two arrays with the same ids position by position resolve every id to the same position |
| StoreModel.UpdateKeepsIds | src/utils/TreeStore/index.ts:103-113 | the id is found exactly when it resolves; update keeps the length and the set of resolving ids; the new item is what the id resolves to unless a later item shares its id |
| Descendants.DescendsFrom | src/utils/TreeStore/index.ts:42-57 | descent defined upward through resolved parent links, independently of the walk; a descendant has a parent and ranks strictly below the id it descends from |
| Descendants.WalkSound | src/utils/TreeStore/index.ts:42-57 | with unique ids, everything the walk emits descends from `id` |
| Descendants.WalkComplete | src/utils/TreeStore/index.ts:42-57 | every item descending from `id` is emitted by the walk |
| Descendants.SubtreesUnique | src/utils/TreeStore/index.ts:46-54 | starting from siblings of one parent, the walk never emits an id twice |
| Descendants.WalkExactlyOnce | src/utils/TreeStore/index.ts:42-57 | on an acyclic array with unique ids the walk emits exactly the descendants of `id`, each once |
| TreeStore.Index.constructor | src/utils/TreeStore/index.ts:7-9 | the store holds the given array and its map agrees with it |
| TreeStore.Index.BuildIdMap | src/utils/TreeStore/index.ts:11-16 | the map is refilled in array order so that it agrees with the array |
| TreeStore.Index.SetWorkData | src/utils/TreeStore/index.ts:22-25 | replacing the array rebuilds the map, which then agrees with the new array |
| TreeStore.Index.GetItem | src/utils/TreeStore/index.ts:31-33 | the map's answer is the array lookup: the last item with the id, or nothing |
| TreeStore.Index.GetChildren | src/utils/TreeStore/index.ts:35-40 | the answer holds exactly the stored items whose parent is `id` |
| TreeStore.Index.GetAllChildren | src/utils/TreeStore/index.ts:42-57 | the stack loop returns the reference walk order below `id` |
| TreeStore.Index.GetAllParents | src/utils/TreeStore/index.ts:59-82 | the loop that prepends resolved parents returns the reference ancestor chain, or nothing when `id` does not resolve |
| TreeStore.Index.AddItem | src/utils/TreeStore/index.ts:83-85 | the new array is the old one followed by the item, and the map agrees with it |
| TreeStore.Index.RemoveItem | src/utils/TreeStore/index.ts:87-101 | the new array is the old one without the item's id and its descendants' ids, in the old order; it stays acyclic and the map agrees with it |
| TreeStore.Index.UpdateItem | src/utils/TreeStore/index.ts:103-113 | the first item with the id is replaced in place, or the array is unchanged when none has it, and the map agrees |
| StoreFixture.FixtureWellFormed | src/utils/TreeStore/__tests__/TreeStore.spec.ts:10-12 | the test data is acyclic and has unique ids |
| StoreFixture.FixtureResolves | src/utils/TreeStore/index.ts:31-33 | every item of the test data is found under its own id |
| StoreFixture.FixtureLookup | src/utils/TreeStore/__tests__/TreeStore.spec.ts:21-27 | 7 resolves to its item and 100 to nothing |
| StoreFixture.FixtureChildrenOfFour | src/utils/TreeStore/__tests__/TreeStore.spec.ts:31-36 | the children of 4 are 7 and 8, in that order |
| StoreFixture.FixtureLeaf | src/utils/TreeStore/__tests__/TreeStore.spec.ts:38-40 | the leaves 5, 6, 7 and 8 have no children |
| StoreFixture.FixtureChildrenOfTwo | src/utils/TreeStore/__tests__/TreeStore.spec.ts:44-51 | the children of the string id '2' are 4, 5 and 6, in that order |
| StoreFixture.FixtureNoChildrenOfNumberTwo | src/utils/TreeStore/__tests__/TreeStore.spec.ts:44-51 | the number 2 has no children, because ids are compared strictly |
| StoreFixture.FixtureAllChildren | src/utils/TreeStore/__tests__/TreeStore.spec.ts:44-52 | the walk below '2' emits 6, 5, 4, 8, 7 in that order |
| StoreFixture.FixtureLeafWalk | src/utils/TreeStore/__tests__/TreeStore.spec.ts:54-56 | the walk below a leaf emits nothing |
| StoreFixture.FixtureAllParents | src/utils/TreeStore/__tests__/TreeStore.spec.ts:59-75 | the chain of 7 is 1, '2', 4, 7 and the chain of the root 1 is just 1 |
| StoreFixture.FixtureRemovalIds | src/utils/TreeStore/__tests__/TreeStore.spec.ts:87-93 | removing 4 removes exactly the ids 4, 7 and 8 |
| StoreFixture.FixtureRemovalOfFour | src/utils/TreeStore/__tests__/TreeStore.spec.ts:87-93 | for every id at once: removing 4 takes exactly 4, 7 and 8 |
| StoreFixture.FixtureRemove | src/utils/TreeStore/__tests__/TreeStore.spec.ts:87-93 | removing 4 leaves 1, '2', 5, 6 in that order |
| StoreFixture.FixtureGoneAfterRemoval | src/utils/TreeStore/__tests__/TreeStore.spec.ts:90-92 | after the removal, 4, 7 and 8 do not resolve |
| StoreFixture.FixtureUpdatePosition | src/utils/TreeStore/__tests__/TreeStore.spec.ts:97-101 | the update of 7 writes the slot that a lookup of 7 reads |
| StoreFixture.FixtureUpdateMissing | src/utils/TreeStore/__tests__/TreeStore.spec.ts:103-107 | no item has the id 100, so its update changes nothing |
| StoreFixture.ScenarioQueries | src/utils/TreeStore/__tests__/TreeStore.spec.ts:20-76 | on a store built from the test data, the class answers 7 with its item and 100 with nothing, walks below '2' in the order 6, 5, 4, 8, 7, and gives the chains 1, '2', 4, 7 for 7 and 1 for 1 |
| StoreFixture.ScenarioChildren | src/utils/TreeStore/__tests__/TreeStore.spec.ts:14-56 | on a store built from the test data, the class returns the array it was given, the children 7, 8 of 4, no children of 8 and an empty walk below 7 |
| StoreFixture.ScenarioAdd | src/utils/TreeStore/__tests__/TreeStore.spec.ts:78-85 | after the class adds item 9 under 4, 9 resolves to it and it is among the children of 4 |
| StoreFixture.ScenarioRemove | src/utils/TreeStore/__tests__/TreeStore.spec.ts:87-94 | after the class removes 4, the store holds 1, '2', 5, 6 and none of 4, 7, 8 resolves |
| StoreFixture.ScenarioUpdate | src/utils/TreeStore/__tests__/TreeStore.spec.ts:96-108 | after the class updates 7, 7 resolves to the new item; after it updates the absent 100, 100 still resolves to nothing |

## Left out

- TreeStore.Index.GetAll: it returns the current array; it has no contract of its own beyond that.
- Aliasing: the constructor keeps the caller's array by reference, and `getAll` hands out the internal array, so a caller can change the store from outside. The model uses value sequences.
- The private getter and setter of the array are not separate members. Reads use the field directly, and `SetWorkData` is the setter.
- GetAllChildren, GetAllParents, RemoveItem: each requires `Acyclic` of the whole array. That is stronger than termination needs. The source loops forever only on a cycle it reaches from `id`. The ancestor loop also follows only the item each id resolves to, which is the last item with that id. In `[A(1→2), B(2→1), C(1→null)]` the ancestors of 2 are `[C, B]` and the loop stops, though the array is not acyclic. Arrays with a cycle are outside the model. Adding and updating items check nothing, as in the source.
- Unique ids: the store does not enforce them. Only these results assume them: `LookupUnique`, `ChildrenUnique`, the exactly-once walk theorem (`WalkSound`, `SubtreesUnique`, `WalkExactlyOnce` and their helpers) and the fixture facts. Every other result holds for repeated ids too, with lookups answering the last item.
- Numeric ids are integers only. Fractional numbers, `NaN` and `-0` are not modelled.
- A `parent` field that is `undefined` rather than null is not modelled. The ancestor loop would try to resolve it, find nothing and stop.
- Item fields beyond id, parent and label: the store never reads them.
- Map hashing internals: the map is a Dafny `map`.
- The Vue components and their tests, `src/main.ts` and `src/components/TreeTable/models.ts` are UI and bootstrap code, not the store.
- `src/utils/TreeStore/types.ts` and the test data file are not part of this model. The order of the test items (1, '2', 4, 5, 6, 7, 8) is taken from the tests' expected answers.
