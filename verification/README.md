# Shopping list of the Forkify recipe application

This project models the shopping list of Forkify, a browser recipe finder. The list
(`src/js/models/List.js`) holds ingredient lines `{id, count, unit, ingredient}` in
insertion order and supports four operations:

- `new List()` creates an empty list.
- `addItem` appends a line under a freshly generated id and returns it.
- `deleteItem` removes a line by id, using `findIndex` and then `splice(index, 1)`.
- `updateCount` overwrites the count of the line with a given id.

The model also covers the one caller that adds lines: the list controller
`controlList` in `src/js/index.js`. It creates the list on first use and adds every
ingredient of the current recipe.

The list is modelled as an immutable value. The `ShoppingList` module has one pure
function per operation, returning the new list. The count is an opaque type
parameter: the list never reads it, it only stores and overwrites it. Ids come from
the external `uniqid` generator, so the id of an added item is a parameter of
`AddItem`. "The id is fresh" is the hypothesis of the uniqueness lemmas, not a
precondition of the operation.

Two behaviours of the code are easy to misread:

- **Deleting an id the list does not hold.** `findIndex` returns -1. A splice starting
  at -1 counts back from the end, so the **last** item of a non-empty list is removed.
  On an empty list nothing changes. A caller might expect a no-op here; the model
  follows the code (`DeleteItem`, `DeleteAbsentDropsLast`).
- **Updating an id the list does not hold.** `find` returns `undefined`, and assigning
  `.count` on it throws. The model returns `Failure(NotFound(id))` and leaves the list
  unchanged.

## Model

| member | source | states |
|---|---|---|
| ShoppingList.Empty | src/js/models/List.js:4-6 | a new list holds no items and no ids, so it starts with distinct ids, the invariant `addItem`, `deleteItem` and `updateCount` preserve |
| ShoppingList.AddItem | src/js/models/List.js:8-18 | the returned item carries the generated id and the given count, unit and ingredient; it is appended as the last item, all earlier items keep their contents and order, the length grows by one, and the id set grows by exactly the new id |
| ShoppingList.FindIndex | src/js/models/List.js:21 | `findIndex` gives -1 exactly when no item has the id; otherwise it gives the position of the first item with that id |
| ShoppingList.SpliceStart | src/js/models/List.js:24 | where `splice` starts: a negative start counts back from the end, clamped at 0; a start past the end is clamped to the length |
| ShoppingList.SpliceOne | src/js/models/List.js:24 | `splice(start, 1)` removes the element at the normalised start (position len-1 for start -1), and nothing when the start is at or past the end, in particular on an empty array whatever the start |
| ShoppingList.RemoveAt | src/js/models/List.js:24 | removing one element shortens the sequence by one, keeps the elements before it in place and shifts the ones after it down, and removes exactly that element from the multiset |
| ShoppingList.DeleteItem | src/js/models/List.js:20-25 | with the id present, removes exactly its first occurrence and keeps the order of the rest; with the id absent, removes the last item of a non-empty list and leaves an empty list unchanged |
| ShoppingList.UpdateCount | src/js/models/List.js:27-29 | fails with NotFound exactly when the id is absent; otherwise the first item with the id gets the new count and every other field and item is unchanged |
| ShoppingList.RemoveAtKeepsUnique | src/js/models/List.js:24 | removing any one item from a list with distinct ids keeps them distinct and drops exactly that item's id |
| ShoppingList.AddItemKeepsUnique | src/js/models/List.js:8-17 | on a list with distinct ids, the ids stay distinct after `addItem` if and only if the generated id is not already held |
| ShoppingList.DeleteItemKeepsUnique | src/js/models/List.js:20-25 | `deleteItem` with any id, present or absent, keeps the ids distinct |
| ShoppingList.DeletePresentRemovesExactlyThatId | src/js/models/List.js:20-25 | with distinct ids and the id present, deleting shortens the list by one, removes that id and no other, and leaves a strict sub-multiset of the items |
| ShoppingList.DeleteAbsentDropsLast | src/js/models/List.js:21-24 | deleting an absent id from a non-empty list is not a no-op: the list changes and loses the last item's id |
| ShoppingList.AddThenDeleteRestores | src/js/models/List.js:8-25 | adding an item under a fresh id and then deleting that id gives back the original list |
| ShoppingList.UpdateCountKeepsIds | src/js/models/List.js:27-29 | a successful update keeps the length and the set of ids, so distinct ids stay distinct |
| ShoppingList.UpdateCountLastWriteWins | src/js/models/List.js:27-29 | updating the same held id twice is the same as making only the second update |
| ShoppingList.UpdateCountWithSameCountIsIdentity | src/js/models/List.js:27-29 | writing back the count the item already has succeeds and leaves the list unchanged |
| ShoppingList.AddThenUpdateTouchesNewItem | src/js/models/List.js:8-29 | updating the id just added under a fresh id changes only the appended item; the result equals adding it with the new count in the first place |
| ListController.ListOrNew | src/js/index.js:127 | the existing list is kept; when there is none, a new empty list is used |
| ListController.ControlList | src/js/index.js:125-134 | one item per ingredient is appended after the existing items, in ingredient order; each is the item `addItem` returned, with the i-th generated id; with fresh, pairwise distinct ids, distinct ids stay distinct |

## Left out

- `uniqid` (`src/js/models/List.js:1,10`) is an external library. The id it returns is a parameter of `AddItem`, and freshness is a hypothesis of the lemmas. Its time- and counter-based generation is not modelled.
- Object identity: JavaScript's `addItem` returns the same object it stores, so a later `updateCount` also changes the caller's copy. The model has values, not references. The returned item equals the stored one only at the moment it is added.
- The `count` value is opaque. `parseFloat` of the user's input (`src/js/index.js:148`) and floating-point numbers are not modelled.
- The shopping-list click handler (`src/js/index.js:136-151`) reads an id from the DOM and calls `deleteItem` or `updateCount`. The DOM reading and view updates are left out; the two calls are the modelled operations.
- Rendering (`listView.renderItem`, `listView.deleteItem`) is view code and is not modelled.
- `src/js/models/Search.js` is a network request to a remote API with errors only logged. It has no logic of its own and is not part of this model.
- The recipe and likes controllers in `src/js/index.js` are not modelled. This covers the servings decrease guard and the like toggle. They delegate to the Recipe and Likes models, which are not part of this model.
