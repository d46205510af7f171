/** Item operations of the store (backend/db.mjs:162-256). */
module ItemOps {
  import opened Results
  import opened Entities
  import opened Collections
  import opened Validation
  import opened Db

  /** getItem: the item with the given id, `None` when there is none. */
  function GetItem(s: Store, id: int): (r: Result<Option<Item>>)
    ensures r.Err? <==> id < 0
    ensures r.Err? ==> r.error == InvalidId
    ensures r.Ok? ==> (r.value.None? <==> id !in ItemIds(s))
    ensures r.Ok? && r.value.Some? ==> r.value.value in s.items && r.value.value.id == id
  {
    if id < 0 then Err(InvalidId)
    else match FindIndex(ItemIds(s), id)
      case None => Ok(None)
      case Some(i) => Ok(Some(s.items[i]))
  }

  /** postItem: the name is checked, then every category id in order (an
      absent `categoryIds` means none); a rejection leaves the store, counter
      included, as it was. An accepted item gets the next id, is stamped `now`
      and is appended. */
  function PostItem(s: Store, input: ItemPartial, now: Timestamp): (r: Step<Item>)
    ensures r.result.Ok? <==> Truthy(input.name) && KnownCategories(CategoryIds(s), input.categoryIds.GetOr([]))
    ensures r.result.Err? ==> r.store == s
    ensures !Truthy(input.name) ==> r.result == Err(EmptyName)
    ensures r.result.Err? && r.result.error.UnknownCategory? ==>
      var c := r.result.error.categoryId;
      c in input.categoryIds.GetOr([]) && 0 <= c && c !in CategoryIds(s)
    ensures r.result.Ok? ==>
      var it := r.result.value;
      && it.id == s.nextItemId
      && it.name == input.name.value
      && it.categoryIds == input.categoryIds.GetOr([])
      && it.createdAt == it.modifiedAt == now
      && r.store == s.(items := s.items + [it], nextItemId := s.nextItemId + 1)
  {
    if !Truthy(input.name) then Step(Err(EmptyName), s)
    else
      var tags := input.categoryIds.GetOr([]);
      match FirstFailure(tags, c => CheckCategoryId(CategoryIds(s), c))
      case Fail(e) => Step(Err(e), s)
      case Pass =>
        var it := Item(s.nextItemId, input.name.value, tags, now, now);
        var s1 := s.(nextItemId := s.nextItemId + 1);
        match CheckItem(CategoryIds(s), it)
        case Fail(e) => Step(Err(e), s1)
        case Pass => Step(Ok(it), s1.(items := s.items + [it]))
  }

  /** Whether a patch supplies any field patchItem applies: a truthy name or
      any `categoryIds` array, even an empty one or one equal to the current. */
  predicate ItemPatchModifies(p: ItemPartial) {
    Truthy(p.name) || p.categoryIds.Some?
  }

  /** The supplied fields written over `existing`, with `modifiedAt` refreshed. */
  function ApplyItemPatch(existing: Item, p: ItemPartial, now: Timestamp): Item
    requires ItemPatchModifies(p)
  {
    existing.(
      name := if Truthy(p.name) then p.name.value else existing.name,
      categoryIds := p.categoryIds.GetOr(existing.categoryIds),
      modifiedAt := now)
  }

  /** patchItem: `None` for an absent id; the existing item untouched when the
      patch supplies nothing; otherwise the patched item, which must name only
      existing categories (and keep its timestamps ordered) before it replaces
      the old one in place. A rejected patch leaves the store as it was (see
      `AsWritten.PatchItem`). */
  function PatchItem(s: Store, id: int, patch: ItemPartial, now: Timestamp): (r: Step<Option<Item>>)
    ensures id < 0 ==> r == Step(Err(InvalidId), s)
    ensures 0 <= id && id !in ItemIds(s) ==> r == Step(Ok(None), s)
    ensures r.result.Err? ==> r.store == s
    ensures r.result.Ok? && r.result.value.Some? ==> r.result.value.value.id == id
    ensures 0 <= id && id in ItemIds(s) ==>
      var i := FindIndex(ItemIds(s), id).value;
      var existing := s.items[i];
      && (!ItemPatchModifies(patch) ==> r == Step(Ok(Some(existing)), s))
      && (ItemPatchModifies(patch) ==>
            (r.result.Ok? <==>
               && (Truthy(patch.name) || existing.name != "")
               && KnownCategories(CategoryIds(s), patch.categoryIds.GetOr(existing.categoryIds))
               && existing.createdAt <= now))
      && (ItemPatchModifies(patch) && r.result.Ok? ==>
            && r.result.value.Some?
            && var it := r.result.value.value;
            && it.name == (if Truthy(patch.name) then patch.name.value else existing.name)
            && it.categoryIds == patch.categoryIds.GetOr(existing.categoryIds)
            && it.createdAt == existing.createdAt && it.createdAt <= it.modifiedAt == now
            && r.store == s.(items := s.items[i := it]))
  {
    if id < 0 then Step(Err(InvalidId), s)
    else match FindIndex(ItemIds(s), id)
      case None => Step(Ok(None), s)
      case Some(i) =>
        var existing := s.items[i];
        if !ItemPatchModifies(patch) then Step(Ok(Some(existing)), s)
        else
          var updated := ApplyItemPatch(existing, patch, now);
          match CheckItem(CategoryIds(s), updated)
          case Fail(e) => Step(Err(e), s)
          case Pass => Step(Ok(Some(updated)), s.(items := s.items[i := updated]))
  }

  /** deleteItem: `false` and no change for an absent id; otherwise the first
      item with that id is spliced out and nothing else changes, in particular
      no list loses its reference (no cascade). */
  function DeleteItem(s: Store, id: int): (r: Step<bool>)
    ensures id < 0 ==> r == Step(Err(InvalidId), s)
    ensures 0 <= id && id !in ItemIds(s) ==> r == Step(Ok(false), s)
    ensures 0 <= id && id in ItemIds(s) ==>
      var i := FindIndex(ItemIds(s), id).value;
      && r.result == Ok(true)
      && s.items[i].id == id
      && r.store == s.(items := RemoveAt(s.items, i))
  {
    if id < 0 then Step(Err(InvalidId), s)
    else match FindIndex(ItemIds(s), id)
      case None => Step(Ok(false), s)
      case Some(i) => Step(Ok(true), s.(items := RemoveAt(s.items, i)))
  }

  /** Posting keeps the invariant and referential integrity, and the new id was
      never issued before. */
  lemma PostItemPreserves(s: Store, input: ItemPartial, now: Timestamp)
    requires Valid(s)
    ensures var r := PostItem(s, input, now);
      && Valid(r.store) && (Closed(s) ==> Closed(r.store))
      && CountersGrow(s, r.store)
      && (r.result.Ok? ==> r.result.value.id !in ItemIds(s))
  {
    var r := PostItem(s, input, now);
    if r.result.Ok? {
      var it := r.result.value;
      var t := r.store;
      KeysAppend(s.items, it, ItemId);
      IssuedAppend(ItemIds(s), s.nextItemId);
      assert ItemIds(t) == ItemIds(s) + [it.id];
      assert ValidItem(CategoryIds(s), it);
      ValidItemWellFormed(s, it);
      forall i | 0 <= i < |t.items|
        ensures WellFormedItem(t.items[i], t.nextCategoryId)
      {
        if i < |s.items| {
          assert t.items[i] == s.items[i];
        }
      }
      forall i | 0 <= i < |t.lists|
        ensures WellFormedList(t.lists[i], t.nextItemId, t.nextListId)
      {
        assert WellFormedList(s.lists[i], s.nextItemId, s.nextListId);
      }
      if Closed(s) {
        forall i | 0 <= i < |t.items|
          ensures KnownCategories(CategoryIds(t), t.items[i].categoryIds)
        {
          if i < |s.items| {
            assert t.items[i] == s.items[i];
          }
        }
        forall i | 0 <= i < |t.lists|
          ensures RefsPresent(t, t.lists[i])
        {
          assert RefsPresent(s, s.lists[i]);
        }
      }
    }
  }

  /** A posted item is what a lookup of its id returns afterwards. */
  lemma GetAfterPostItem(s: Store, input: ItemPartial, now: Timestamp)
    requires Valid(s) && PostItem(s, input, now).result.Ok?
    ensures var r := PostItem(s, input, now);
      GetItem(r.store, r.result.value.id) == Ok(Some(r.result.value))
  {
    var r := PostItem(s, input, now);
    PostItemPreserves(s, input, now);
    KeysAppend(s.items, r.result.value, ItemId);
    FindIndexOfDistinct(ItemIds(r.store), |s.items|);
  }

  /** Under the invariant a patch changes only the item with that id, and
      keeps the invariant and referential integrity. */
  lemma PatchItemPreserves(s: Store, id: int, patch: ItemPartial, now: Timestamp)
    requires Valid(s)
    ensures var r := PatchItem(s, id, patch, now);
      && Valid(r.store) && (Closed(s) ==> Closed(r.store))
      && CountersGrow(s, r.store)
      && ItemIds(r.store) == ItemIds(s)
      && |r.store.items| == |s.items|
      && (forall j :: 0 <= j < |s.items| && s.items[j].id != id ==> r.store.items[j] == s.items[j])
      && (r.result.Ok? && r.result.value.Some? ==> r.result.value.value in r.store.items)
  {
    var r := PatchItem(s, id, patch, now);
    if r.store != s {
      var i := FindIndex(ItemIds(s), id).value;
      var it := r.result.value.value;
      var t := r.store;
      KeysUpdate(s.items, i, it, ItemId);
      assert ValidItem(CategoryIds(s), it);
      ValidItemWellFormed(s, it);
      forall j | 0 <= j < |s.items| && s.items[j].id != id
        ensures t.items[j] == s.items[j]
      {
        assert j != i;
      }
      assert t.items[i] == it;
      forall j | 0 <= j < |t.lists|
        ensures WellFormedList(t.lists[j], t.nextItemId, t.nextListId)
      {
        assert WellFormedList(s.lists[j], s.nextItemId, s.nextListId);
      }
      if Closed(s) {
        forall j | 0 <= j < |t.lists|
          ensures RefsPresent(t, t.lists[j])
        {
          assert RefsPresent(s, s.lists[j]);
        }
      }
    } else if r.result.Ok? && r.result.value.Some? {
      assert r.result.value.value == s.items[FindIndex(ItemIds(s), id).value];
    }
  }

  /** Under the invariant a delete removes exactly the item with that id,
      keeps the others in order, and keeps the invariant. */
  lemma DeleteItemPreserves(s: Store, id: int)
    requires Valid(s)
    ensures var r := DeleteItem(s, id);
      && Valid(r.store)
      && CountersGrow(s, r.store)
      && id !in ItemIds(r.store)
      && (r.result == Ok(true) <==> 0 <= id && id in ItemIds(s))
      && (r.result == Ok(true) ==> |r.store.items| == |s.items| - 1)
      && (forall it :: it in s.items && it.id != id ==> it in r.store.items)
  {
    var r := DeleteItem(s, id);
    if r.result == Ok(true) {
      var i := FindIndex(ItemIds(s), id).value;
      var t := r.store;
      KeysRemoveAt(s.items, i, ItemId);
      IssuedRemoveAt(ItemIds(s), s.nextItemId, i);
      forall it | it in s.items && it.id != id
        ensures it in t.items
      {
        var j :| 0 <= j < |s.items| && s.items[j] == it;
        if j < i {
          assert t.items[j] == it;
        } else {
          assert j != i;
          assert t.items[j - 1] == it;
        }
      }
      forall j | 0 <= j < |t.items|
        ensures WellFormedItem(t.items[j], t.nextCategoryId)
      {
        if j < i {
          assert t.items[j] == s.items[j];
        } else {
          assert t.items[j] == s.items[j + 1];
        }
      }
    }
  }
}
