/** The store's state (the `Data` aggregate of backend/db.mjs): three
    collections in insertion order and three id counters that only grow. */
module Db {
  import opened Results
  import opened Entities
  import opened Collections
  import opened Validation

  datatype Store = Store(
    categories: seq<Category>,
    nextCategoryId: nat,
    items: seq<Item>,
    nextItemId: nat,
    lists: seq<List>,
    nextListId: nat)

  /** What an operation answers, together with the state it leaves behind. */
  datatype Step<+T> = Step(result: Result<T>, store: Store)

  function CategoryIds(s: Store): seq<int> { Keys(s.categories, CategoryId) }

  function ItemIds(s: Store): seq<int> { Keys(s.items, ItemId) }

  function ListIds(s: Store): seq<int> { Keys(s.lists, ListId) }

  /** The state a new store starts from when there is no file to load. */
  function Empty(): (s: Store)
    ensures Valid(s) && Closed(s)
    ensures |s.categories| == |s.items| == |s.lists| == 0
    ensures s.nextCategoryId == s.nextItemId == s.nextListId == 0
  {
    Store([], 0, [], 0, [], 0)
  }

  /** An item reference as the store keeps it: a count of at least one, a
      target id that was issued, ordered timestamps. */
  predicate WellFormedItemRef(r: ItemRef, nextItemId: nat) {
    1 <= r.count && 0 <= r.itemId < nextItemId && r.createdAt <= r.modifiedAt
  }

  predicate WellFormedListRef(r: ListRef, nextListId: nat) {
    1 <= r.count && 0 <= r.listId < nextListId && r.createdAt <= r.modifiedAt
  }

  predicate WellFormedItem(it: Item, nextCategoryId: nat) {
    && it.name != ""
    && Below(it.categoryIds, nextCategoryId)
    && it.createdAt <= it.modifiedAt
  }

  predicate WellFormedList(l: List, nextItemId: nat, nextListId: nat) {
    && l.name != ""
    && (forall k :: 0 <= k < |l.itemRefs| ==> WellFormedItemRef(l.itemRefs[k], nextItemId))
    && (forall k :: 0 <= k < |l.listRefs| ==> WellFormedListRef(l.listRefs[k], nextListId))
    && NoSelfReference(l)
    && l.createdAt <= l.modifiedAt
  }

  /** The store invariant: within each collection ids are distinct and below
      that collection's counter; every entity is named and has ordered
      timestamps; every reference names an id that was issued, with a count
      of at least one; no list refers to itself. A deleted target leaves a
      reference behind (deletes do not cascade), so references are bounded by
      the counters, not by the ids present; see `Closed`. */
  predicate Valid(s: Store) {
    && Issued(CategoryIds(s), s.nextCategoryId)
    && Issued(ItemIds(s), s.nextItemId)
    && Issued(ListIds(s), s.nextListId)
    && (forall i :: 0 <= i < |s.categories| ==> ValidCategory(s.categories[i]))
    && (forall i :: 0 <= i < |s.items| ==> WellFormedItem(s.items[i], s.nextCategoryId))
    && (forall i :: 0 <= i < |s.lists| ==> WellFormedList(s.lists[i], s.nextItemId, s.nextListId))
  }

  /** Referential integrity: every reference names an entity present now. */
  predicate Closed(s: Store) {
    && (forall i :: 0 <= i < |s.items| ==> KnownCategories(CategoryIds(s), s.items[i].categoryIds))
    && (forall i :: 0 <= i < |s.lists| ==> RefsPresent(s, s.lists[i]))
  }

  predicate RefsPresent(s: Store, l: List) {
    && (forall k :: 0 <= k < |l.itemRefs| ==> l.itemRefs[k].itemId in ItemIds(s))
    && (forall k :: 0 <= k < |l.listRefs| ==> l.listRefs[k].listId in ListIds(s))
  }

  /** The counters of `t` are at least those of `s`. */
  predicate CountersGrow(s: Store, t: Store) {
    && s.nextCategoryId <= t.nextCategoryId
    && s.nextItemId <= t.nextItemId
    && s.nextListId <= t.nextListId
  }

  /** An item that passes validation against a valid store keeps the
      store's invariant: a category id present in the store was issued. */
  lemma ValidItemWellFormed(s: Store, it: Item)
    requires Valid(s) && ValidItem(CategoryIds(s), it)
    ensures WellFormedItem(it, s.nextCategoryId)
  {
    forall k | 0 <= k < |it.categoryIds|
      ensures 0 <= it.categoryIds[k] < s.nextCategoryId
    {
      InBelow(CategoryIds(s), s.nextCategoryId, it.categoryIds[k]);
    }
  }

  /** Likewise for a list and its references. */
  lemma ValidListWellFormed(s: Store, l: List)
    requires Valid(s) && ValidList(ItemIds(s), ListIds(s), l)
    ensures WellFormedList(l, s.nextItemId, s.nextListId)
  {
    forall k | 0 <= k < |l.itemRefs|
      ensures WellFormedItemRef(l.itemRefs[k], s.nextItemId)
    {
      InBelow(ItemIds(s), s.nextItemId, l.itemRefs[k].itemId);
    }
    forall k | 0 <= k < |l.listRefs|
      ensures WellFormedListRef(l.listRefs[k], s.nextListId)
    {
      InBelow(ListIds(s), s.nextListId, l.listRefs[k].listId);
    }
  }

  /** Raising the counters keeps a list well formed. */
  lemma WellFormedListGrow(l: List, nextItemId: nat, nextListId: nat, nextItemId': nat, nextListId': nat)
    requires WellFormedList(l, nextItemId, nextListId)
    requires nextItemId <= nextItemId' && nextListId <= nextListId'
    ensures WellFormedList(l, nextItemId', nextListId')
  {
    assert forall k :: 0 <= k < |l.itemRefs| ==> WellFormedItemRef(l.itemRefs[k], nextItemId);
    assert forall k :: 0 <= k < |l.listRefs| ==> WellFormedListRef(l.listRefs[k], nextListId);
  }
}
