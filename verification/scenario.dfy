/** What the store's tests check (patching or deleting an absent id, posting an
    item with an unknown category), replayed on a new store and extended with
    a rename and an empty patch. */
module Scenario {
  import opened Results
  import opened Entities
  import opened Collections
  import opened Db
  import opened CategoryOps
  import opened ItemOps

  /** A category "Books" gets id 0; renaming it refreshes `modifiedAt`; an
      empty patch returns it unchanged; patching or deleting an id that was
      never issued answers `None` or `false`; an item tagged with the
      category is accepted and one tagged with the unknown id 1234 is not. */
  lemma BooksScenario()
    ensures var s0 := Empty();
      var p := PostCategory(s0, CategoryPartial(Some("Books")), 1);
      && p.result == Ok(Category(0, "Books", 1, 1))
      && var q := PatchCategory(p.store, 0, CategoryPartial(Some("New")), 2);
      && q.result == Ok(Some(Category(0, "New", 1, 2)))
      && PatchCategory(q.store, 0, CategoryPartial(None), 3) == Step(Ok(Some(Category(0, "New", 1, 2))), q.store)
      && PatchCategory(q.store, 999, CategoryPartial(Some("Hello")), 3) == Step(Ok(None), q.store)
      && DeleteCategory(q.store, 999) == Step(Ok(false), q.store)
      && PostItem(q.store, ItemPartial(Some("Apple"), Some([0])), 4).result == Ok(Item(0, "Apple", [0], 4, 4))
      && PostItem(q.store, ItemPartial(Some("Fork"), Some([1234])), 4) == Step(Err(UnknownCategory(1234)), q.store)
  {
    var s0 := Empty();
    var p := PostCategory(s0, CategoryPartial(Some("Books")), 1);
    assert CategoryIds(p.store) == [0];
    var q := PatchCategory(p.store, 0, CategoryPartial(Some("New")), 2);
    assert q.store.categories == [Category(0, "New", 1, 2)];
    assert CategoryIds(q.store) == [0];
    assert 1234 !in CategoryIds(q.store);
  }
}
