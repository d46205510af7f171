/** Category operations of the store (backend/db.mjs:80-160). */
module CategoryOps {
  import opened Results
  import opened Entities
  import opened Collections
  import opened Validation
  import opened Db

  /** getCategory: the category with the given id, `None` when there is none. */
  function GetCategory(s: Store, id: int): (r: Result<Option<Category>>)
    ensures r.Err? <==> id < 0
    ensures r.Err? ==> r.error == InvalidId
    ensures r.Ok? ==> (r.value.None? <==> id !in CategoryIds(s))
    ensures r.Ok? && r.value.Some? ==> r.value.value in s.categories && r.value.value.id == id
  {
    if id < 0 then Err(InvalidId)
    else match FindIndex(CategoryIds(s), id)
      case None => Ok(None)
      case Some(i) => Ok(Some(s.categories[i]))
  }

  /** postCategory: a new category under the next id, stamped `now`, appended
      at the end; the counter moves only when the name is acceptable. */
  function PostCategory(s: Store, input: CategoryPartial, now: Timestamp): (r: Step<Category>)
    ensures r.result.Ok? <==> Truthy(input.name)
    ensures r.result.Err? ==> r.result.error == EmptyName && r.store == s
    ensures r.result.Ok? ==>
      var c := r.result.value;
      && c.id == s.nextCategoryId
      && c.name == input.name.value
      && c.createdAt == c.modifiedAt == now
      && r.store == s.(categories := s.categories + [c], nextCategoryId := s.nextCategoryId + 1)
  {
    if !Truthy(input.name) then Step(Err(EmptyName), s)
    else
      var c := Category(s.nextCategoryId, input.name.value, now, now);
      var s1 := s.(nextCategoryId := s.nextCategoryId + 1);
      match CheckCategory(c)
      case Fail(e) => Step(Err(e), s1)
      case Pass => Step(Ok(c), s1.(categories := s.categories + [c]))
  }

  /** Whether a patch supplies any field patchCategory applies. */
  predicate CategoryPatchModifies(p: CategoryPartial) {
    Truthy(p.name)
  }

  /** The supplied fields written over `existing`, with `modifiedAt` refreshed. */
  function ApplyCategoryPatch(existing: Category, p: CategoryPartial, now: Timestamp): Category
    requires CategoryPatchModifies(p)
  {
    existing.(name := p.name.value, modifiedAt := now)
  }

  /** patchCategory: `None` for an absent id; the existing category untouched
      when the patch supplies nothing; otherwise the patched category, which
      must pass validation before it replaces the old one in place. A rejected
      patch leaves the store as it was (see `AsWritten.PatchCategory`). */
  function PatchCategory(s: Store, id: int, patch: CategoryPartial, now: Timestamp): (r: Step<Option<Category>>)
    ensures id < 0 ==> r == Step(Err(InvalidId), s)
    ensures 0 <= id && id !in CategoryIds(s) ==> r == Step(Ok(None), s)
    ensures r.result.Err? ==> r.store == s
    ensures r.result.Ok? && r.result.value.Some? ==> r.result.value.value.id == id
    ensures 0 <= id && id in CategoryIds(s) ==>
      var i := FindIndex(CategoryIds(s), id).value;
      var existing := s.categories[i];
      && (!CategoryPatchModifies(patch) ==> r == Step(Ok(Some(existing)), s))
      && (CategoryPatchModifies(patch) && now < existing.createdAt ==> r == Step(Err(BadTimestamps), s))
      && (CategoryPatchModifies(patch) && existing.createdAt <= now ==>
            && r.result.Ok? && r.result.value.Some?
            && var c := r.result.value.value;
            && c.name == patch.name.value
            && c.createdAt == existing.createdAt && c.createdAt <= c.modifiedAt == now
            && r.store == s.(categories := s.categories[i := c]))
  {
    if id < 0 then Step(Err(InvalidId), s)
    else match FindIndex(CategoryIds(s), id)
      case None => Step(Ok(None), s)
      case Some(i) =>
        var existing := s.categories[i];
        if !CategoryPatchModifies(patch) then Step(Ok(Some(existing)), s)
        else
          var updated := ApplyCategoryPatch(existing, patch, now);
          match CheckCategory(updated)
          case Fail(e) => Step(Err(e), s)
          case Pass => Step(Ok(Some(updated)), s.(categories := s.categories[i := updated]))
  }

  /** deleteCategory: `false` and no change for an absent id; otherwise the
      first category with that id is spliced out and nothing else changes, in
      particular no item loses its tag (no cascade). */
  function DeleteCategory(s: Store, id: int): (r: Step<bool>)
    ensures id < 0 ==> r == Step(Err(InvalidId), s)
    ensures 0 <= id && id !in CategoryIds(s) ==> r == Step(Ok(false), s)
    ensures 0 <= id && id in CategoryIds(s) ==>
      var i := FindIndex(CategoryIds(s), id).value;
      && r.result == Ok(true)
      && s.categories[i].id == id
      && r.store == s.(categories := RemoveAt(s.categories, i))
  {
    if id < 0 then Step(Err(InvalidId), s)
    else match FindIndex(CategoryIds(s), id)
      case None => Step(Ok(false), s)
      case Some(i) => Step(Ok(true), s.(categories := RemoveAt(s.categories, i)))
  }

  /** Posting keeps the invariant and referential integrity, and the new id was
      never issued before. */
  lemma PostCategoryPreserves(s: Store, input: CategoryPartial, now: Timestamp)
    requires Valid(s)
    ensures var r := PostCategory(s, input, now);
      && Valid(r.store) && (Closed(s) ==> Closed(r.store))
      && CountersGrow(s, r.store)
      && (r.result.Ok? ==> r.result.value.id !in CategoryIds(s))
  {
    var r := PostCategory(s, input, now);
    if r.result.Ok? {
      var c := r.result.value;
      var t := r.store;
      KeysAppend(s.categories, c, CategoryId);
      IssuedAppend(CategoryIds(s), s.nextCategoryId);
      assert CategoryIds(t) == CategoryIds(s) + [c.id];
      forall i | 0 <= i < |t.categories|
        ensures ValidCategory(t.categories[i])
      {
        if i < |s.categories| {
          assert t.categories[i] == s.categories[i];
        }
      }
      assert c.id !in CategoryIds(s);
      if Closed(s) {
        forall i | 0 <= i < |t.items|
          ensures KnownCategories(CategoryIds(t), t.items[i].categoryIds)
        {
          assert KnownCategories(CategoryIds(s), s.items[i].categoryIds);
        }
      }
    }
  }

  /** A posted category is what a lookup of its id returns afterwards. */
  lemma GetAfterPostCategory(s: Store, input: CategoryPartial, now: Timestamp)
    requires Valid(s) && Truthy(input.name)
    ensures var r := PostCategory(s, input, now);
      GetCategory(r.store, r.result.value.id) == Ok(Some(r.result.value))
  {
    var r := PostCategory(s, input, now);
    var c := r.result.value;
    PostCategoryPreserves(s, input, now);
    KeysAppend(s.categories, c, CategoryId);
    FindIndexOfDistinct(CategoryIds(r.store), |s.categories|);
  }

  /** Under the invariant a patch changes only the category with that id, and
      keeps the invariant and referential integrity. */
  lemma PatchCategoryPreserves(s: Store, id: int, patch: CategoryPartial, now: Timestamp)
    requires Valid(s)
    ensures var r := PatchCategory(s, id, patch, now);
      && Valid(r.store) && (Closed(s) ==> Closed(r.store))
      && CountersGrow(s, r.store)
      && CategoryIds(r.store) == CategoryIds(s)
      && |r.store.categories| == |s.categories|
      && (forall j :: 0 <= j < |s.categories| && s.categories[j].id != id ==>
            r.store.categories[j] == s.categories[j])
      && (r.result.Ok? && r.result.value.Some? ==> r.result.value.value in r.store.categories)
  {
    var r := PatchCategory(s, id, patch, now);
    if r.store != s {
      var i := FindIndex(CategoryIds(s), id).value;
      var c := r.result.value.value;
      KeysUpdate(s.categories, i, c, CategoryId);
      forall j | 0 <= j < |s.categories| && s.categories[j].id != id
        ensures r.store.categories[j] == s.categories[j]
      {
        assert j != i;
      }
      assert r.store.categories[i] == c;
    } else if r.result.Ok? && r.result.value.Some? {
      assert r.result.value.value == s.categories[FindIndex(CategoryIds(s), id).value];
    }
  }

  /** Under the invariant a delete removes exactly the category with that id,
      keeps the others in order, and keeps the invariant. */
  lemma DeleteCategoryPreserves(s: Store, id: int)
    requires Valid(s)
    ensures var r := DeleteCategory(s, id);
      && Valid(r.store)
      && CountersGrow(s, r.store)
      && id !in CategoryIds(r.store)
      && (r.result == Ok(true) <==> 0 <= id && id in CategoryIds(s))
      && (r.result == Ok(true) ==> |r.store.categories| == |s.categories| - 1)
      && (forall c :: c in s.categories && c.id != id ==> c in r.store.categories)
  {
    var r := DeleteCategory(s, id);
    if r.result == Ok(true) {
      var i := FindIndex(CategoryIds(s), id).value;
      KeysRemoveAt(s.categories, i, CategoryId);
      IssuedRemoveAt(CategoryIds(s), s.nextCategoryId, i);
      forall c | c in s.categories && c.id != id
        ensures c in r.store.categories
      {
        var j :| 0 <= j < |s.categories| && s.categories[j] == c;
        if j < i {
          assert r.store.categories[j] == c;
        } else {
          assert j != i;
          assert r.store.categories[j - 1] == c;
        }
      }
    }
  }

  /** Deleting a category that an item still names leaves the item naming a
      category that no longer exists: integrity is not kept by deletes. */
  lemma DeleteCategoryMayDangle(s: Store, j: nat, k: nat)
    requires Valid(s) && j < |s.items| && k < |s.items[j].categoryIds|
    ensures var r := DeleteCategory(s, s.items[j].categoryIds[k]);
      && r.store.items == s.items
      && !Closed(r.store)
  {
    var c := s.items[j].categoryIds[k];
    assert 0 <= c;
    DeleteCategoryPreserves(s, c);
    var r := DeleteCategory(s, c);
    assert !KnownCategories(CategoryIds(r.store), r.store.items[j].categoryIds);
  }
}
