/** The store's code as written where it departs from what it evidently
    intends. The rest of the model uses the intended behaviour; each member
    here is set against its intended counterpart by a lemma. */
module AsWritten {
  import opened Results
  import opened Entities
  import opened Collections
  import opened Db
  import Validation
  import ItemOps
  import ListOps
  import CategoryOps

  /** assertValidList as written (backend/db.mjs:390-421): the reference
      arrays are checked with `every`, whose callbacks (assertValidListRef,
      assertValidItemRef) throw on a bad reference and otherwise return
      `undefined`. `every` stops at that falsy value, so the first reference
      is checked on its own and then the enclosing `assert` fails anyway. */
  function CheckList(itemIds: seq<int>, listIds: seq<int>, l: List): (o: Outcome)
    ensures o.Pass? <==> Validation.CheckList(itemIds, listIds, l).Pass? && |l.listRefs| == 0 && |l.itemRefs| == 0
    ensures |l.listRefs| + |l.itemRefs| > 0 ==> o.Fail?
  {
    match Validation.CheckName(l.name)
    case Fail(e) => Fail(e)
    case Pass =>
      if |l.listRefs| > 0 then
        match Validation.CheckListRef(listIds, l.listRefs[0])
        case Fail(e) => Fail(e)
        case Pass => Fail(RefsRejected)
      else if |l.itemRefs| > 0 then
        match Validation.CheckItemRef(itemIds, l.itemRefs[0])
        case Fail(e) => Fail(e)
        case Pass => Fail(RefsRejected)
      else if !Validation.NoSelfReference(l) then Fail(SelfReference)
      else Validation.CheckTimestamps(l.createdAt, l.modifiedAt)
  }

  /** A list holding one reference to an existing item, with a count of two,
      passes the intended check and is rejected as written. */
  lemma ValidRefRejected()
    ensures var l := List(1, "Groceries", [ItemRef(0, 2, 5, 5)], [], 5, 5);
      && Validation.CheckList([0], [1], l) == Pass
      && CheckList([0], [1], l) == Fail(RefsRejected)
  {
    var l := List(1, "Groceries", [ItemRef(0, 2, 5, 5)], [], 5, 5);
    assert Validation.ValidItemRef([0], l.itemRefs[0]);
    assert Validation.ValidList([0], [1], l);
  }

  /** postList as written: the same steps as `ListOps.PostList`, with the
      final validation as written. */
  function PostList(s: Store, input: ListPartial, now: Timestamp): (r: Step<List>)
    ensures r.result.Ok? <==>
      ListOps.PostList(s, input, now).result.Ok? && |input.itemRefs.GetOr([])| == 0 && |input.listRefs.GetOr([])| == 0
    ensures r.result.Ok? ==> r == ListOps.PostList(s, input, now)
  {
    if !Truthy(input.name) then Step(Err(EmptyName), s)
    else
      var itemRefs := input.itemRefs.GetOr([]);
      var listRefs := input.listRefs.GetOr([]);
      match Validation.FirstFailure(itemRefs, r => Validation.CheckItemRef(ItemIds(s), r))
      case Fail(e) => Step(Err(e), s)
      case Pass =>
        match Validation.FirstFailure(listRefs, r => Validation.CheckListRef(ListIds(s), r))
        case Fail(e) => Step(Err(e), s)
        case Pass =>
          var l := List(s.nextListId, input.name.value, itemRefs, listRefs, now, now);
          var s1 := s.(nextListId := s.nextListId + 1);
          match CheckList(ItemIds(s), ListIds(s), l)
          case Fail(e) => Step(Err(e), s1)
          case Pass => Step(Ok(l), s1.(lists := s.lists + [l]))
  }

  /** As written, every post of a list with references that the intended
      rule accepts is rejected after the counter has moved: the id is burned
      and no list is added. */
  lemma PostListBurnsId(s: Store, input: ListPartial, now: Timestamp)
    requires Valid(s) && ListOps.PostList(s, input, now).result.Ok?
    requires |input.itemRefs.GetOr([])| + |input.listRefs.GetOr([])| > 0
    ensures var r := PostList(s, input, now);
      && r.result.Err?
      && r.store.lists == s.lists
      && r.store.nextListId == s.nextListId + 1
  {
    ListOps.PostListNeverBurnsId(s, input, now);
  }

  /** patchCategory as written (backend/db.mjs:123-133): the name and
      `modifiedAt` are written into the stored object before the validation
      that may reject them, so a rejected patch stays in the store. */
  function PatchCategory(s: Store, id: int, patch: CategoryPartial, now: Timestamp): (r: Step<Option<Category>>)
    ensures r.result == CategoryOps.PatchCategory(s, id, patch, now).result
    ensures r.result.Ok? ==> r.store == CategoryOps.PatchCategory(s, id, patch, now).store
    ensures 0 <= id && id in CategoryIds(s) && CategoryOps.CategoryPatchModifies(patch) ==>
      var i := FindIndex(CategoryIds(s), id).value;
      r.store == s.(categories := s.categories[i := CategoryOps.ApplyCategoryPatch(s.categories[i], patch, now)])
  {
    if id < 0 then Step(Err(InvalidId), s)
    else match FindIndex(CategoryIds(s), id)
      case None => Step(Ok(None), s)
      case Some(i) =>
        var existing := s.categories[i];
        if !CategoryOps.CategoryPatchModifies(patch) then Step(Ok(Some(existing)), s)
        else
          var updated := CategoryOps.ApplyCategoryPatch(existing, patch, now);
          var s1 := s.(categories := s.categories[i := updated]);
          match Validation.CheckCategory(updated)
          case Fail(e) => Step(Err(e), s1)
          case Pass => Step(Ok(Some(updated)), s1)
  }

  /** A name patch whose clock reads earlier than the category's creation is
      rejected, yet leaves the category with `modifiedAt` before `createdAt`. */
  lemma FailedPatchCategoryBreaksInvariant(s: Store, i: nat, name: string, now: Timestamp)
    requires Valid(s) && i < |s.categories| && name != "" && now < s.categories[i].createdAt
    ensures var r := PatchCategory(s, s.categories[i].id, CategoryPartial(Some(name)), now);
      && r.result == Err(BadTimestamps)
      && r.store.categories[i].modifiedAt < r.store.categories[i].createdAt
      && !Valid(r.store)
  {
    FindIndexOfDistinct(CategoryIds(s), i);
  }

  /** patchItem as written (backend/db.mjs:215-229): the same leak. */
  function PatchItem(s: Store, id: int, patch: ItemPartial, now: Timestamp): (r: Step<Option<Item>>)
    ensures r.result == ItemOps.PatchItem(s, id, patch, now).result
    ensures r.result.Ok? ==> r.store == ItemOps.PatchItem(s, id, patch, now).store
    ensures 0 <= id && id in ItemIds(s) && ItemOps.ItemPatchModifies(patch) ==>
      var i := FindIndex(ItemIds(s), id).value;
      r.store == s.(items := s.items[i := ItemOps.ApplyItemPatch(s.items[i], patch, now)])
  {
    if id < 0 then Step(Err(InvalidId), s)
    else match FindIndex(ItemIds(s), id)
      case None => Step(Ok(None), s)
      case Some(i) =>
        var existing := s.items[i];
        if !ItemOps.ItemPatchModifies(patch) then Step(Ok(Some(existing)), s)
        else
          var updated := ItemOps.ApplyItemPatch(existing, patch, now);
          var s1 := s.(items := s.items[i := updated]);
          match Validation.CheckItem(CategoryIds(s), updated)
          case Fail(e) => Step(Err(e), s1)
          case Pass => Step(Ok(Some(updated)), s1)
  }

  /** Patching an item with a category id that was never issued (such as
      1234 in a store with fewer categories) is rejected, yet the item keeps
      the unknown id: a later `getItem` returns it and the invariant is broken. */
  lemma FailedPatchItemBreaksInvariant(s: Store, i: nat, c: int, now: Timestamp)
    requires Valid(s) && i < |s.items| && s.nextCategoryId <= c && s.items[i].createdAt <= now
    ensures var r := PatchItem(s, s.items[i].id, ItemPatch(c), now);
      && r.result == Err(Results.InvalidCategoryIds)
      && ItemOps.GetItem(r.store, s.items[i].id) == Ok(Some(s.items[i].(categoryIds := [c], modifiedAt := now)))
      && !Valid(r.store)
  {
    var id := s.items[i].id;
    FindIndexOfDistinct(ItemIds(s), i);
    assert c !in CategoryIds(s) by {
      if c in CategoryIds(s) {
        InBelow(CategoryIds(s), s.nextCategoryId, c);
      }
    }
    assert [c][0] !in CategoryIds(s);
    assert WellFormedItem(s.items[i], s.nextCategoryId);
    var r := PatchItem(s, id, ItemPatch(c), now);
    KeysUpdate(s.items, i, r.store.items[i], ItemId);
    FindIndexOfDistinct(ItemIds(r.store), i);
  }

  /** A patch that only sets `categoryIds` to the single id `c`. */
  function ItemPatch(c: int): ItemPartial {
    ItemPartial(None, Some([c]))
  }

  /** patchList as written (backend/db.mjs:308-326): the same leak, with the
      final validation as written. */
  function PatchList(s: Store, id: int, patch: ListPartial, now: Timestamp): (r: Step<Option<List>>)
    ensures id < 0 ==> r == Step(Err(InvalidId), s)
    ensures 0 <= id && id !in ListIds(s) ==> r == Step(Ok(None), s)
    ensures r.result.Ok? ==> r.store == ListOps.PatchList(s, id, patch, now).store
    ensures r.result.Ok? ==> r.result == ListOps.PatchList(s, id, patch, now).result
    ensures 0 <= id && id in ListIds(s) && ListOps.ListPatchModifies(patch) ==>
      var i := FindIndex(ListIds(s), id).value;
      r.store == s.(lists := s.lists[i := ListOps.ApplyListPatch(s.lists[i], patch, now)])
  {
    if id < 0 then Step(Err(InvalidId), s)
    else match FindIndex(ListIds(s), id)
      case None => Step(Ok(None), s)
      case Some(i) =>
        var existing := s.lists[i];
        if !ListOps.ListPatchModifies(patch) then Step(Ok(Some(existing)), s)
        else
          var updated := ListOps.ApplyListPatch(existing, patch, now);
          var s1 := s.(lists := s.lists[i := updated]);
          match CheckList(ItemIds(s), ListIds(s), updated)
          case Fail(e) => Step(Err(e), s1)
          case Pass => Step(Ok(Some(updated)), s1)
  }

  /** Patching a list to refer to itself is rejected, yet the self-reference
      stays in the store. */
  lemma FailedPatchListKeepsSelfReference(s: Store, i: nat, now: Timestamp)
    requires Valid(s) && i < |s.lists| && s.lists[i].createdAt <= now
    ensures var id := s.lists[i].id;
      var r := PatchList(s, id, ListPartial(None, None, Some([ListRef(id, 1, now, now)])), now);
      && r.result.Err?
      && !Validation.NoSelfReference(r.store.lists[i])
      && !Valid(r.store)
  {
    FindIndexOfDistinct(ListIds(s), i);
  }
}
