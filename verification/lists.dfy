/** List operations of the store (backend/db.mjs:258-353). */
module ListOps {
  import opened Results
  import opened Entities
  import opened Collections
  import opened Validation
  import opened Db

  /** getList: the list with the given id, `None` when there is none. */
  function GetList(s: Store, id: int): (r: Result<Option<List>>)
    ensures r.Err? <==> id < 0
    ensures r.Err? ==> r.error == InvalidId
    ensures r.Ok? ==> (r.value.None? <==> id !in ListIds(s))
    ensures r.Ok? && r.value.Some? ==> r.value.value in s.lists && r.value.value.id == id
  {
    if id < 0 then Err(InvalidId)
    else match FindIndex(ListIds(s), id)
      case None => Ok(None)
      case Some(i) => Ok(Some(s.lists[i]))
  }

  /** Every item reference names an item of `s`, and likewise for list references,
      each with a count of at least one and ordered timestamps. */
  predicate RefsValid(s: Store, itemRefs: seq<ItemRef>, listRefs: seq<ListRef>) {
    && (forall k :: 0 <= k < |itemRefs| ==> ValidItemRef(ItemIds(s), itemRefs[k]))
    && (forall k :: 0 <= k < |listRefs| ==> ValidListRef(ListIds(s), listRefs[k]))
  }

  /** No list reference names `id`. */
  predicate Avoids(listRefs: seq<ListRef>, id: int) {
    forall k :: 0 <= k < |listRefs| ==> listRefs[k].listId != id
  }

  /** postList: the name is checked, then every item reference and every list
      reference in order (absent sequences mean none). The counter moves
      before the assembled list is validated once more, so a rejection at
      that last step, a reference to the id just issued, keeps the moved
      counter; `PostListNeverBurnsId` shows it cannot happen in a valid store. */
  function PostList(s: Store, input: ListPartial, now: Timestamp): (r: Step<List>)
    ensures r.result.Ok? <==>
      && Truthy(input.name)
      && RefsValid(s, input.itemRefs.GetOr([]), input.listRefs.GetOr([]))
      && Avoids(input.listRefs.GetOr([]), s.nextListId)
    ensures !Truthy(input.name) ==> r.result == Err(EmptyName)
    ensures r.result.Err? ==>
      || r.store == s
      || (r.result.error == SelfReference && r.store == s.(nextListId := s.nextListId + 1))
    ensures r.result.Ok? ==>
      var l := r.result.value;
      && l.id == s.nextListId
      && l.name == input.name.value
      && l.itemRefs == input.itemRefs.GetOr([])
      && l.listRefs == input.listRefs.GetOr([])
      && l.createdAt == l.modifiedAt == now
      && r.store == s.(lists := s.lists + [l], nextListId := s.nextListId + 1)
  {
    if !Truthy(input.name) then Step(Err(EmptyName), s)
    else
      var itemRefs := input.itemRefs.GetOr([]);
      var listRefs := input.listRefs.GetOr([]);
      match FirstFailure(itemRefs, r => CheckItemRef(ItemIds(s), r))
      case Fail(e) => Step(Err(e), s)
      case Pass =>
        match FirstFailure(listRefs, r => CheckListRef(ListIds(s), r))
        case Fail(e) => Step(Err(e), s)
        case Pass =>
          var l := List(s.nextListId, input.name.value, itemRefs, listRefs, now, now);
          var s1 := s.(nextListId := s.nextListId + 1);
          match CheckList(ItemIds(s), ListIds(s), l)
          case Fail(e) => Step(Err(e), s1)
          case Pass => Step(Ok(l), s1.(lists := s.lists + [l]))
  }

  /** Whether a patch supplies any field patchList applies: a truthy name or
      either reference array, whatever its content. */
  predicate ListPatchModifies(p: ListPartial) {
    Truthy(p.name) || p.itemRefs.Some? || p.listRefs.Some?
  }

  /** The supplied fields written over `existing`, with `modifiedAt` refreshed. */
  function ApplyListPatch(existing: List, p: ListPartial, now: Timestamp): List
    requires ListPatchModifies(p)
  {
    existing.(
      name := if Truthy(p.name) then p.name.value else existing.name,
      itemRefs := p.itemRefs.GetOr(existing.itemRefs),
      listRefs := p.listRefs.GetOr(existing.listRefs),
      modifiedAt := now)
  }

  /** patchList: `None` for an absent id; the existing list untouched when the
      patch supplies nothing; otherwise the patched list, which must have valid
      references and none to itself before it replaces the old one in place.
      A rejected patch leaves the store as it was (see `AsWritten.PatchList`). */
  function PatchList(s: Store, id: int, patch: ListPartial, now: Timestamp): (r: Step<Option<List>>)
    ensures id < 0 ==> r == Step(Err(InvalidId), s)
    ensures 0 <= id && id !in ListIds(s) ==> r == Step(Ok(None), s)
    ensures r.result.Err? ==> r.store == s
    ensures r.result.Ok? && r.result.value.Some? ==> r.result.value.value.id == id
    ensures 0 <= id && id in ListIds(s) ==>
      var i := FindIndex(ListIds(s), id).value;
      var existing := s.lists[i];
      var itemRefs := patch.itemRefs.GetOr(existing.itemRefs);
      var listRefs := patch.listRefs.GetOr(existing.listRefs);
      && (!ListPatchModifies(patch) ==> r == Step(Ok(Some(existing)), s))
      && (ListPatchModifies(patch) ==>
            (r.result.Ok? <==>
               && (Truthy(patch.name) || existing.name != "")
               && RefsValid(s, itemRefs, listRefs)
               && Avoids(listRefs, id)
               && existing.createdAt <= now))
      && (ListPatchModifies(patch) && RefsValid(s, itemRefs, listRefs) && !Avoids(listRefs, id) ==>
            r.result == Err(SelfReference) || r.result == Err(EmptyName))
      && (ListPatchModifies(patch) && r.result.Ok? ==>
            && r.result.value.Some?
            && var l := r.result.value.value;
            && l.name == (if Truthy(patch.name) then patch.name.value else existing.name)
            && l.itemRefs == itemRefs
            && l.listRefs == listRefs
            && l.createdAt == existing.createdAt && l.createdAt <= l.modifiedAt == now
            && r.store == s.(lists := s.lists[i := l]))
  {
    if id < 0 then Step(Err(InvalidId), s)
    else match FindIndex(ListIds(s), id)
      case None => Step(Ok(None), s)
      case Some(i) =>
        var existing := s.lists[i];
        if !ListPatchModifies(patch) then Step(Ok(Some(existing)), s)
        else
          var updated := ApplyListPatch(existing, patch, now);
          match CheckList(ItemIds(s), ListIds(s), updated)
          case Fail(e) => Step(Err(e), s)
          case Pass => Step(Ok(Some(updated)), s.(lists := s.lists[i := updated]))
  }

  /** deleteList: `false` and no change for an absent id; otherwise the first
      list with that id is spliced out and nothing else changes, in particular
      no other list loses its reference (no cascade). */
  function DeleteList(s: Store, id: int): (r: Step<bool>)
    ensures id < 0 ==> r == Step(Err(InvalidId), s)
    ensures 0 <= id && id !in ListIds(s) ==> r == Step(Ok(false), s)
    ensures 0 <= id && id in ListIds(s) ==>
      var i := FindIndex(ListIds(s), id).value;
      && r.result == Ok(true)
      && s.lists[i].id == id
      && r.store == s.(lists := RemoveAt(s.lists, i))
  {
    if id < 0 then Step(Err(InvalidId), s)
    else match FindIndex(ListIds(s), id)
      case None => Step(Ok(false), s)
      case Some(i) => Step(Ok(true), s.(lists := RemoveAt(s.lists, i)))
  }

  /** In a valid store the id `postList` issues is not among the existing list
      ids a reference must name, so the new list cannot refer to itself, its
      last validation cannot fail, and a rejected post leaves the store (counter
      included) as it was. */
  lemma PostListNeverBurnsId(s: Store, input: ListPartial, now: Timestamp)
    requires Valid(s)
    ensures var r := PostList(s, input, now);
      && (r.result.Err? ==> r.store == s)
      && (r.result.Ok? <==> Truthy(input.name) && RefsValid(s, input.itemRefs.GetOr([]), input.listRefs.GetOr([])))
      && (r.result.Ok? ==> NoSelfReference(r.result.value))
  {
    var listRefs := input.listRefs.GetOr([]);
    if RefsValid(s, input.itemRefs.GetOr([]), listRefs) {
      forall k | 0 <= k < |listRefs|
        ensures listRefs[k].listId != s.nextListId
      {
        InBelow(ListIds(s), s.nextListId, listRefs[k].listId);
      }
    }
  }

  /** Posting keeps the invariant and referential integrity, and the new id was
      never issued before. */
  lemma PostListPreserves(s: Store, input: ListPartial, now: Timestamp)
    requires Valid(s)
    ensures var r := PostList(s, input, now);
      && Valid(r.store) && (Closed(s) ==> Closed(r.store))
      && CountersGrow(s, r.store)
      && (r.result.Ok? ==> r.result.value.id !in ListIds(s))
  {
    var r := PostList(s, input, now);
    PostListNeverBurnsId(s, input, now);
    if r.result.Ok? {
      var l := r.result.value;
      var t := r.store;
      KeysAppend(s.lists, l, ListId);
      IssuedAppend(ListIds(s), s.nextListId);
      assert ListIds(t) == ListIds(s) + [l.id];
      assert ValidList(ItemIds(s), ListIds(s), l);
      ValidListWellFormed(s, l);
      WellFormedListGrow(l, s.nextItemId, s.nextListId, t.nextItemId, t.nextListId);
      forall i | 0 <= i < |t.lists|
        ensures WellFormedList(t.lists[i], t.nextItemId, t.nextListId)
      {
        if i < |s.lists| {
          assert t.lists[i] == s.lists[i];
          WellFormedListGrow(s.lists[i], s.nextItemId, s.nextListId, t.nextItemId, t.nextListId);
        }
      }
      if Closed(s) {
        forall i | 0 <= i < |t.lists|
          ensures RefsPresent(t, t.lists[i])
        {
          if i < |s.lists| {
            assert t.lists[i] == s.lists[i];
            assert RefsPresent(s, s.lists[i]);
          }
        }
      }
    }
  }

  /** A posted list is what a lookup of its id returns afterwards. */
  lemma GetAfterPostList(s: Store, input: ListPartial, now: Timestamp)
    requires Valid(s) && PostList(s, input, now).result.Ok?
    ensures var r := PostList(s, input, now);
      GetList(r.store, r.result.value.id) == Ok(Some(r.result.value))
  {
    var r := PostList(s, input, now);
    PostListPreserves(s, input, now);
    KeysAppend(s.lists, r.result.value, ListId);
    FindIndexOfDistinct(ListIds(r.store), |s.lists|);
  }

  /** Under the invariant a patch changes only the list with that id, and
      keeps the invariant and referential integrity. */
  lemma PatchListPreserves(s: Store, id: int, patch: ListPartial, now: Timestamp)
    requires Valid(s)
    ensures var r := PatchList(s, id, patch, now);
      && Valid(r.store) && (Closed(s) ==> Closed(r.store))
      && CountersGrow(s, r.store)
      && ListIds(r.store) == ListIds(s)
      && |r.store.lists| == |s.lists|
      && (forall j :: 0 <= j < |s.lists| && s.lists[j].id != id ==> r.store.lists[j] == s.lists[j])
      && (r.result.Ok? && r.result.value.Some? ==> r.result.value.value in r.store.lists)
  {
    var r := PatchList(s, id, patch, now);
    if r.store != s {
      var i := FindIndex(ListIds(s), id).value;
      var l := r.result.value.value;
      var t := r.store;
      KeysUpdate(s.lists, i, l, ListId);
      assert ValidList(ItemIds(s), ListIds(s), l);
      ValidListWellFormed(s, l);
      forall j | 0 <= j < |s.lists| && s.lists[j].id != id
        ensures t.lists[j] == s.lists[j]
      {
        assert j != i;
      }
      assert t.lists[i] == l;
      if Closed(s) {
        forall j | 0 <= j < |t.lists|
          ensures RefsPresent(t, t.lists[j])
        {
          if j != i {
            assert RefsPresent(s, s.lists[j]);
          }
        }
      }
    } else if r.result.Ok? && r.result.value.Some? {
      assert r.result.value.value == s.lists[FindIndex(ListIds(s), id).value];
    }
  }

  /** Under the invariant a delete removes exactly the list with that id,
      keeps the others in order, and keeps the invariant. */
  lemma DeleteListPreserves(s: Store, id: int)
    requires Valid(s)
    ensures var r := DeleteList(s, id);
      && Valid(r.store)
      && CountersGrow(s, r.store)
      && id !in ListIds(r.store)
      && (r.result == Ok(true) <==> 0 <= id && id in ListIds(s))
      && (r.result == Ok(true) ==> |r.store.lists| == |s.lists| - 1)
      && (forall l :: l in s.lists && l.id != id ==> l in r.store.lists)
  {
    var r := DeleteList(s, id);
    if r.result == Ok(true) {
      var i := FindIndex(ListIds(s), id).value;
      var t := r.store;
      KeysRemoveAt(s.lists, i, ListId);
      IssuedRemoveAt(ListIds(s), s.nextListId, i);
      forall l | l in s.lists && l.id != id
        ensures l in t.lists
      {
        var j :| 0 <= j < |s.lists| && s.lists[j] == l;
        if j < i {
          assert t.lists[j] == l;
        } else {
          assert j != i;
          assert t.lists[j - 1] == l;
        }
      }
      forall j | 0 <= j < |t.lists|
        ensures WellFormedList(t.lists[j], t.nextItemId, t.nextListId)
      {
        if j < i {
          assert t.lists[j] == s.lists[j];
        } else {
          assert t.lists[j] == s.lists[j + 1];
        }
      }
    }
  }
}
