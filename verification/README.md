# organized-lists store, modelled in Dafny

The inventory tracker keeps **categories**, **items** (tagged with category
ids) and **lists** (quantities of items and of other lists, referenced by id)
in one in-memory aggregate owned by class `DB` in `backend/db.mjs`. The
aggregate also holds three counters (`nextCategoryId`, `nextItemId`,
`nextListId`) from which new ids are issued and which never go back. Every
`post*`/`patch*` validates its input, applies it, revalidates the entity and
saves the whole aggregate; `delete*` splices one entity out without touching
anything that refers to it.

This project models that store as a pure state machine:

- `Db.Store` is the aggregate: three sequences in insertion order and three
  `nat` counters. `Db.Step<T>` pairs an operation's answer (`Results.Result`,
  with one `Results.Error` constructor per failing assertion) with the store
  it leaves behind.
- `CategoryOps`, `ItemOps`, `ListOps` hold `Get*`, `Post*`, `Patch*` and
  `Delete*` for each entity type. Each one is a total function of the store,
  its arguments and the clock reading `now`.
- `Validation` holds the `assertValid*` checks. Each check returns the first
  failure in the order the JavaScript evaluates, and comes with a declarative
  predicate (`ValidItem`, `ValidList`, `ValidItemRef`, …) that states the rule.
- `Db.Valid` is the store invariant. Within a collection, ids are distinct and
  below the counter. Every entity is named and has `createdAt <= modifiedAt`.
  Every reference has a count of at least one and names an id that was
  issued. No list refers to itself. `Db.Closed` is the stronger referential
  integrity (every reference names an entity present now): posts and patches
  keep it, deletes do not.
- `Commands` runs any sequence of calls and proves the invariant holds in
  every reachable state.
- `AsWritten` holds the code as written where it departs from its evident
  intent (see "## Findings"). The rest of the model uses the intended
  behaviour.

Decisions on the code's quirks:

- **Truthy patch fields.** A patch applies `name` only when it is present and
  non-empty, as the JavaScript truthiness test does, so `name: ""` is silently
  ignored. A reference or category array is applied whenever it is present,
  even when it is empty, because JavaScript arrays are always truthy. A
  supplied field counts as a change, and refreshes `modifiedAt`, even when it
  equals the current value. The model follows the code here.
- **Reference validation.** `assertValidList` passes its per-reference checks
  to `every`, so any non-empty reference array is rejected. The model's store
  uses the per-reference rule of `assertValidListRef`/`assertValidItemRef`
  instead; the code as written is `AsWritten.CheckList`.
- **Rejected patches.** The code writes the patched fields and `modifiedAt`
  into the stored object before revalidating, so a rejected patch stays in
  memory. In the model a rejected patch leaves the store unchanged. The
  code validates an entity before it saves it, so a rejected entity is
  evidently meant to be neither saved nor kept. The code as written is
  `AsWritten.PatchCategory`, `AsWritten.PatchItem` and `AsWritten.PatchList`.
- **Burned list ids.** `postList` moves `nextListId` before its last
  validation. The model keeps that order. `ListOps.PostListNeverBurnsId`
  proves that in a valid store that last validation cannot fail, while
  `AsWritten.PostListBurnsId` shows that it always fails for lists with
  references under the code as written.
- **Errors.** An error is a value, not an exception. `InvalidId` stands for
  `assertValidId`. For `postItem`, `UnknownCategory(c)` names the first
  unknown id, as its message does. `patchItem` reports only the generic
  `InvalidCategoryIds`.
- **Time.** Time is the parameter `now`, and no clock monotonicity is
  assumed. A patch whose `now` precedes `createdAt` is therefore rejected by
  the timestamp check, as the code would reject it.

## Model

| member | source | states |
|---|---|---|
| Collections.FindIndex | backend/db.mjs:143-145 | the position of the first entity with the id, and `None` (JavaScript's -1) exactly when no entity has it |
| Collections.RemoveAt | backend/db.mjs:147 | splicing out one element shortens the collection by one and keeps the others in order |
| Validation.FirstFailure | backend/db.mjs:181-186 | a check run over each element in turn passes exactly when every element passes; otherwise it reports the first failing element's error |
| Validation.CheckTimestamps | backend/db.mjs:456-464 | passes exactly when `createdAt <= modifiedAt` |
| Validation.CheckName | backend/db.mjs:506-512 | passes exactly when the name is non-empty |
| Validation.CheckCategoryId | backend/db.mjs:181-186 | a category id in an item payload passes exactly when it is non-negative and names an existing category; a negative id fails as an invalid id and an unknown one as unknown category |
| Validation.CheckItemRef | backend/db.mjs:441-449 | an item reference passes exactly when its id is non-negative, its count is at least one, it names an existing item and its timestamps are ordered; the errors are reported in that order |
| Validation.CheckListRef | backend/db.mjs:428-434 | the same rule for a list reference against the existing lists |
| Validation.CheckCategory | backend/db.mjs:360-365 | a category passes exactly when it is named and its timestamps are ordered |
| Validation.CheckItem | backend/db.mjs:372-383 | an item passes exactly when it is named, every category id is non-negative and names an existing category, and its timestamps are ordered |
| Validation.CheckList | backend/db.mjs:390-421 | a list passes exactly when it is named, every reference passes its own check, no list reference names the list itself, and its timestamps are ordered (intended reading of the reference checks) |
| Db.Empty | backend/db.mjs:37-44 | a new store has empty collections, all counters at 0, and satisfies the invariant and referential integrity |
| CategoryOps.GetCategory | backend/db.mjs:157-160 | a negative id is an invalid argument; otherwise the answer is `None` exactly when no category has the id, and otherwise a stored category with that id |
| CategoryOps.PostCategory | backend/db.mjs:92-108 | succeeds exactly when the name is non-empty; the new category has the old counter as id, the given name and `createdAt == modifiedAt == now`; it is appended and the counter rises by one; nothing else changes; a rejection changes nothing |
| CategoryOps.PatchCategory | backend/db.mjs:116-134 | a negative id is an invalid argument; an absent id answers `None` and changes nothing; a patch without a non-empty name returns the existing category and changes nothing; otherwise the name is replaced, `modifiedAt` becomes `now`, `createdAt` is kept and the category is replaced in place, unless `now` precedes `createdAt`, which is rejected with the store unchanged |
| CategoryOps.DeleteCategory | backend/db.mjs:141-150 | a negative id is an invalid argument; an absent id answers `false` and changes nothing; otherwise the answer is `true` and exactly the first category with the id is spliced out, with counters, items and lists untouched |
| CategoryOps.PostCategoryPreserves | backend/db.mjs:98-105 | posting a category keeps the store invariant and referential integrity, never lowers a counter, and issues an id no present category has |
| CategoryOps.GetAfterPostCategory | backend/db.mjs:157-160 | after a successful post, looking up the new id returns the posted category |
| CategoryOps.PatchCategoryPreserves | backend/db.mjs:119-133 | in a valid store a patch keeps the invariant and referential integrity, keeps the set and order of ids, changes no category with another id, and the returned category is the stored one |
| CategoryOps.DeleteCategoryPreserves | backend/db.mjs:143-149 | in a valid store a delete keeps the invariant and counters, leaves no category with the id, answers `true` exactly when the id was present, shortens the collection by one and keeps every other category |
| CategoryOps.DeleteCategoryMayDangle | backend/db.mjs:141-150 | deleting a category that an item names leaves the items untouched and breaks referential integrity: deletes do not cascade |
| ItemOps.GetItem | backend/db.mjs:253-256 | a negative id is an invalid argument; otherwise the answer is `None` exactly when no item has the id, and otherwise a stored item with that id |
| ItemOps.PostItem | backend/db.mjs:174-200 | succeeds exactly when the name is non-empty and every category id (none when omitted) is non-negative and names an existing category; an unknown id is reported by value; any rejection leaves the items and the counter unchanged; on success the item has the old counter as id, the given name and tags, `createdAt == modifiedAt == now`, and is appended with the counter raised by one |
| ItemOps.PatchItem | backend/db.mjs:208-230 | a negative id is an invalid argument; an absent id answers `None`; a patch with no non-empty name and no `categoryIds` returns the existing item unchanged; otherwise it succeeds exactly when the resulting item is named, names only existing categories and `createdAt <= now`, and then replaces exactly the supplied fields, sets `modifiedAt` to `now` and replaces the item in place; a rejection changes nothing |
| ItemOps.DeleteItem | backend/db.mjs:237-246 | a negative id is an invalid argument; an absent id answers `false` and changes nothing; otherwise the answer is `true` and exactly the first item with the id is spliced out, with counters, categories and lists untouched |
| ItemOps.PostItemPreserves | backend/db.mjs:187-197 | posting an item keeps the store invariant and referential integrity, never lowers a counter, and issues an id no present item has |
| ItemOps.GetAfterPostItem | backend/db.mjs:253-256 | after a successful post, looking up the new id returns the posted item |
| ItemOps.PatchItemPreserves | backend/db.mjs:211-228 | in a valid store a patch keeps the invariant and referential integrity, keeps the ids, changes no item with another id, and the returned item is the stored one |
| ItemOps.DeleteItemPreserves | backend/db.mjs:239-245 | in a valid store a delete keeps the invariant and counters, leaves no item with the id, answers `true` exactly when it was present, shortens the collection by one and keeps every other item |
| ListOps.GetList | backend/db.mjs:350-353 | a negative id is an invalid argument; otherwise the answer is `None` exactly when no list has the id, and otherwise a stored list with that id |
| ListOps.PostList | backend/db.mjs:270-293 | succeeds exactly when the name is non-empty, every reference (none when omitted) is valid against the store and no list reference names the id about to be issued; on success the list gets the old counter as id, the given fields and `createdAt == modifiedAt == now`, and is appended with the counter raised by one; a rejection changes nothing, except that a reference to the new id is rejected after the counter has moved |
| ListOps.PatchList | backend/db.mjs:301-327 | a negative id is an invalid argument; an absent id answers `None`; a patch supplying nothing returns the existing list unchanged; otherwise it succeeds exactly when the result is named, every reference is valid, no list reference names the list itself and `createdAt <= now`, and then replaces exactly the supplied fields, sets `modifiedAt` to `now` and replaces the list in place; a self-reference among otherwise valid references is rejected; a rejection changes nothing |
| ListOps.DeleteList | backend/db.mjs:334-343 | a negative id is an invalid argument; an absent id answers `false` and changes nothing; otherwise the answer is `true` and exactly the first list with the id is spliced out, with counters, categories, items and the other lists untouched |
| ListOps.PostListNeverBurnsId | backend/db.mjs:279-289 | in a valid store the id a post issues is not one a reference can name, so the post succeeds exactly when the name and references are valid, the new list never refers to itself, and a rejection leaves the counter unchanged |
| ListOps.PostListPreserves | backend/db.mjs:281-290 | posting a list keeps the store invariant and referential integrity, never lowers a counter, and issues an id no present list has |
| ListOps.GetAfterPostList | backend/db.mjs:350-353 | after a successful post, looking up the new id returns the posted list |
| ListOps.PatchListPreserves | backend/db.mjs:304-323 | in a valid store a patch keeps the invariant (including no self-reference) and referential integrity, keeps the ids, changes no list with another id, and the returned list is the stored one |
| ListOps.DeleteListPreserves | backend/db.mjs:336-342 | in a valid store a delete keeps the invariant and counters, leaves no list with the id, answers `true` exactly when it was present, shortens the collection by one and keeps every other list |
| Commands.ApplyPreserves | backend/db.mjs:92-343 | every post, patch and delete, accepted or rejected, keeps the store invariant and never lowers a counter |
| Commands.RunPreserves | backend/db.mjs:92-343 | any sequence of calls keeps the store invariant and never lowers a counter |
| Commands.ReachableValid | backend/db.mjs:30-48 | every state reachable from a new store satisfies the invariant |
| AsWritten.CheckList | backend/db.mjs:390-421 | as written, a list passes exactly when the intended check passes and it has no references at all; any reference makes it fail |
| AsWritten.ValidRefRejected | backend/db.mjs:398-412 | a list with one reference to an existing item is accepted by the intended check and rejected as written |
| AsWritten.PostList | backend/db.mjs:270-293 | as written, a post succeeds exactly when the intended post succeeds and supplies no references, and then with the same result and store |
| AsWritten.PostListBurnsId | backend/db.mjs:279-292 | as written, every post of a list with references the intended rule accepts is rejected after the counter has moved: no list is added and the id is lost |
| AsWritten.PatchCategory | backend/db.mjs:116-134 | as written, a category patch answers as the intended one; whenever it supplies a field, accepted or rejected, the patched category replaces the stored one |
| AsWritten.FailedPatchCategoryBreaksInvariant | backend/db.mjs:128-131 | as written, a name patch dated before the category's creation is rejected yet stays in the store with `modifiedAt` before `createdAt`, breaking the invariant |
| AsWritten.PatchItem | backend/db.mjs:208-230 | as written, an item patch answers as the intended one; whenever it supplies a field, accepted or rejected, the patched item replaces the stored one |
| AsWritten.FailedPatchItemBreaksInvariant | backend/db.mjs:220-226 | as written, a patch tagging an item with a never-issued category id is rejected, yet a later lookup returns the item with that id and the invariant is broken |
| AsWritten.PatchList | backend/db.mjs:301-327 | as written, a list patch treats negative and absent ids as the intended one does, and on success answers and leaves the store as the intended one; whenever it supplies a field, accepted or rejected, the patched list replaces the stored one |
| AsWritten.FailedPatchListKeepsSelfReference | backend/db.mjs:313-323 | as written, patching a list to refer to itself is rejected, yet the self-reference stays in the store and the invariant is broken |
| Scenario.BooksScenario | backend/__tests__/db.test.mjs:40-78 | on a new store (as the tests at lines 40-43, 70-74 and 76-78 expect): "Books" gets id 0, a rename refreshes `modifiedAt`, an empty patch returns it unchanged, patching or deleting a never-issued id answers `None`/`false` without change, an item tagged 0 is accepted and one tagged 1234 is rejected with the store unchanged |

## Left out

- `save`, `load` and the constructor's file handling (backend/db.mjs:30-78) are left out. This covers JSON serialisation, the swallowed parse error, and timestamps that come back as strings after a reload. A save is treated as having no effect on the in-memory state; the constructor is `Db.Empty`. The persistence round-trip property is therefore not stated.
- `getCategories`, `getItems` and `getLists` return the live arrays. In the model they are the `Store` fields themselves. Aliasing is not modelled: a caller mutating the returned array, or a patch storing the caller's array.
- `assertValidObject` and the `typeof`, `instanceof Date` and null checks are carried by the Dafny types. JavaScript accepts a fractional id such as 1.5 in `assertValidId`; the model's ids are integers. An invalid `Date` is not modelled.
- Counts are integers in the model. JavaScript's `assertValidCount` (backend/db.mjs:495-499) also accepts a fractional count such as 1.5.
- The counters are unbounded `nat`s. In JavaScript they are doubles: once a counter reaches 2^53, `nextXId++` stops increasing it and the same id would be issued again. The model does not cover that.
- Reference timestamps are `nat`s. The REST layer passes the JSON request body straight to `postList`/`patchList` (backend/api/v1/list.mjs:85-86, 104-106), so a reference arriving over HTTP carries strings, not `Date` objects. It therefore always fails the `instanceof Date` check, inside `postList`'s pre-check (backend/db.mjs:273-277) and inside the final validation of `patchList`. The reference findings below are reachable only from an in-process caller that passes `Date` values.
- Error messages are not modelled, only which check failed.
- `postItem` writes `[]` into the caller's payload when `categoryIds` is missing. That side effect on the argument is not modelled; the default itself is.
- Entity identity is not modelled. The REST layer uses it to tell a no-op patch (304) from a real one. The model returns an equal value instead.
- The REST route handlers, the query helpers in `backend/util.mjs`, the server bootstrap and the browser UI are left out. They are not part of the store.
- The source has tests that call `postCategory` and `postItem` with a bare string. The code rejects that argument, so these tests do not describe the store's behaviour and are not modelled.

## Findings

| source | as written | input that shows it | evidently intended | confidence | as-written member | corrected member |
|---|---|---|---|---|---|---|
| backend/db.mjs:398-412 | `every` is given `assertValidListRef`/`assertValidItemRef`, which return `undefined`, so any non-empty reference array fails the enclosing `assert` | a list named "Groceries" with one item reference `{itemId: 0, count: 2, createdAt: d, modifiedAt: d}` (a `Date` d) to an existing item; the pre-check accepts that reference and the intended per-reference rule accepts it too | each reference checked by its own rule, the list accepted when all pass | high, not executed | AsWritten.CheckList, AsWritten.ValidRefRejected | Validation.CheckList |
| backend/db.mjs:279-292 | `nextListId++` runs before the final `assertValidList`, so a post rejected there still consumes an id | `postList({name: "L", itemRefs: [{itemId: 0, count: 1, createdAt: d, modifiedAt: d}]})` (a `Date` d), called in-process, in a store holding item 0 | a rejected post leaves the counter unchanged | high, not executed | AsWritten.PostList, AsWritten.PostListBurnsId | ListOps.PostList, ListOps.PostListNeverBurnsId |
| backend/db.mjs:215-229 | fields and `modifiedAt` are written into the stored item before `assertValidItem`, so a rejected patch stays in memory | `patchItem(0, {categoryIds: [1234]})` in a store with item 0 and fewer than 1235 categories | a rejected patch leaves the store unchanged | high, not executed | AsWritten.PatchItem, AsWritten.FailedPatchItemBreaksInvariant | ItemOps.PatchItem, ItemOps.PatchItemPreserves |
| backend/db.mjs:308-323 | the same ordering in `patchList`, so a rejected self-reference stays in memory | `patchList(0, {listRefs: [{listId: 0, count: 1, createdAt: d, modifiedAt: d}]})` (a `Date` d) for an existing list 0 | a rejected patch leaves the store unchanged | high, not executed | AsWritten.PatchList, AsWritten.FailedPatchListKeepsSelfReference | ListOps.PatchList, ListOps.PatchListPreserves |
| backend/db.mjs:123-131 | the same ordering in `patchCategory`, so a patch rejected for its timestamps stays in memory | `patchCategory(0, {name: "New"})` while the clock reads earlier than category 0's `createdAt` (the wall clock stepped back) | a rejected patch leaves the store unchanged | medium, not executed | AsWritten.PatchCategory, AsWritten.FailedPatchCategoryBreaksInvariant | CategoryOps.PatchCategory, CategoryOps.PatchCategoryPreserves |
