/** The store's `assertValid*` checks (backend/db.mjs:355-512). Each check is
    a function that reports the first failing assertion in the order the
    JavaScript evaluates them, next to a predicate that states the rule it
    enforces. Type checks (`typeof`, `instanceof Date`, null) are carried by
    the Dafny types instead. */
module Validation {
  import opened Results
  import opened Entities

  /** Runs `check` on each element in order and stops at the first failure,
      as a `forEach` whose callback throws does. */
  function FirstFailure<T>(xs: seq<T>, check: T -> Outcome): (r: Outcome)
    ensures r.Pass? <==> forall i :: 0 <= i < |xs| ==> check(xs[i]).Pass?
    ensures r.Fail? ==> exists i :: 0 <= i < |xs| && check(xs[i]) == r && forall j :: 0 <= j < i ==> check(xs[j]).Pass?
  {
    if |xs| == 0 then Pass
    else match check(xs[0])
      case Fail(e) => Fail(e)
      case Pass =>
        var r := FirstFailure(xs[1..], check);
        assert r.Fail? ==> exists i :: 1 <= i < |xs| && check(xs[i]) == r && forall j :: 0 <= j < i ==> check(xs[j]).Pass? by {
          if r.Fail? {
            var i :| 0 <= i < |xs[1..]| && check(xs[1..][i]) == r && forall j :: 0 <= j < i ==> check(xs[1..][j]).Pass?;
            assert forall j :: 0 <= j < i + 1 ==> check(xs[j]).Pass? by {
              forall j | 0 <= j < i + 1 ensures check(xs[j]).Pass? {
                if j > 0 {
                  assert xs[j] == xs[1..][j - 1];
                }
              }
            }
            assert check(xs[i + 1]) == r;
          }
        }
        r
  }

  /** assertValidCreatedAndModifiedAt */
  function CheckTimestamps(createdAt: Timestamp, modifiedAt: Timestamp): (o: Outcome)
    ensures o.Pass? <==> createdAt <= modifiedAt
    ensures o.Fail? ==> o.error == BadTimestamps
  {
    if createdAt <= modifiedAt then Pass else Fail(BadTimestamps)
  }

  /** assertNonEmptyString */
  function CheckName(name: string): (o: Outcome)
    ensures o.Pass? <==> name != ""
    ensures o.Fail? ==> o.error == EmptyName
  {
    if name == "" then Fail(EmptyName) else Pass
  }

  /** The lookup `postItem` makes for each entry of `categoryIds`: `getCategory`
      refuses a negative id, then the entry must name an existing category. */
  function CheckCategoryId(categoryIds: seq<int>, c: int): (o: Outcome)
    ensures o.Pass? <==> 0 <= c && c in categoryIds
    ensures o.Fail? ==> o == Fail(InvalidId) || o == Fail(UnknownCategory(c))
    ensures o == Fail(UnknownCategory(c)) <==> 0 <= c && c !in categoryIds
  {
    if c < 0 then Fail(InvalidId)
    else if c !in categoryIds then Fail(UnknownCategory(c))
    else Pass
  }

  /** The rule for one item reference: a non-negative id naming an existing
      item, a count of at least one, and ordered timestamps. */
  predicate ValidItemRef(itemIds: seq<int>, r: ItemRef) {
    && 0 <= r.itemId
    && 1 <= r.count
    && r.itemId in itemIds
    && r.createdAt <= r.modifiedAt
  }

  /** assertValidItemRef */
  function CheckItemRef(itemIds: seq<int>, r: ItemRef): (o: Outcome)
    ensures o.Pass? <==> ValidItemRef(itemIds, r)
    ensures o == Fail(InvalidId) <==> r.itemId < 0
    ensures o == Fail(InvalidCount) <==> 0 <= r.itemId && r.count < 1
    ensures o == Fail(UnknownItem(r.itemId)) <==> 0 <= r.itemId && 1 <= r.count && r.itemId !in itemIds
  {
    if r.itemId < 0 then Fail(InvalidId)
    else if r.count < 1 then Fail(InvalidCount)
    else if r.itemId !in itemIds then Fail(UnknownItem(r.itemId))
    else CheckTimestamps(r.createdAt, r.modifiedAt)
  }

  /** The rule for one list reference, the same shape as for items. */
  predicate ValidListRef(listIds: seq<int>, r: ListRef) {
    && 0 <= r.listId
    && 1 <= r.count
    && r.listId in listIds
    && r.createdAt <= r.modifiedAt
  }

  /** assertValidListRef */
  function CheckListRef(listIds: seq<int>, r: ListRef): (o: Outcome)
    ensures o.Pass? <==> ValidListRef(listIds, r)
    ensures o == Fail(InvalidId) <==> r.listId < 0
    ensures o == Fail(InvalidCount) <==> 0 <= r.listId && r.count < 1
    ensures o == Fail(UnknownList(r.listId)) <==> 0 <= r.listId && 1 <= r.count && r.listId !in listIds
  {
    if r.listId < 0 then Fail(InvalidId)
    else if r.count < 1 then Fail(InvalidCount)
    else if r.listId !in listIds then Fail(UnknownList(r.listId))
    else CheckTimestamps(r.createdAt, r.modifiedAt)
  }

  /** A category is valid when it is named and its timestamps are ordered. */
  predicate ValidCategory(c: Category) {
    c.name != "" && c.createdAt <= c.modifiedAt
  }

  /** assertValidCategory (the id check is carried by the `nat` type) */
  function CheckCategory(c: Category): (o: Outcome)
    ensures o.Pass? <==> ValidCategory(c)
    ensures o.Fail? ==> o.error in {EmptyName, BadTimestamps}
  {
    match CheckName(c.name)
    case Fail(e) => Fail(e)
    case Pass => CheckTimestamps(c.createdAt, c.modifiedAt)
  }

  /** Every category id an item carries is non-negative and names an existing category. */
  predicate KnownCategories(categoryIds: seq<int>, tags: seq<int>) {
    forall k :: 0 <= k < |tags| ==> 0 <= tags[k] && tags[k] in categoryIds
  }

  /** An item is valid when it is named, tagged only with existing categories,
      and its timestamps are ordered; duplicate tags are allowed. */
  predicate ValidItem(categoryIds: seq<int>, it: Item) {
    && it.name != ""
    && KnownCategories(categoryIds, it.categoryIds)
    && it.createdAt <= it.modifiedAt
  }

  /** assertValidItem */
  function CheckItem(categoryIds: seq<int>, it: Item): (o: Outcome)
    ensures o.Pass? <==> ValidItem(categoryIds, it)
    ensures o == Fail(InvalidCategoryIds) <==> it.name != "" && !KnownCategories(categoryIds, it.categoryIds)
    ensures o.Fail? ==> o.error in {EmptyName, InvalidCategoryIds, BadTimestamps}
  {
    match CheckName(it.name)
    case Fail(e) => Fail(e)
    case Pass =>
      if !KnownCategories(categoryIds, it.categoryIds) then Fail(InvalidCategoryIds)
      else CheckTimestamps(it.createdAt, it.modifiedAt)
  }

  /** No list reference of `l` names `l` itself. Longer cycles are not excluded. */
  predicate NoSelfReference(l: List) {
    forall k :: 0 <= k < |l.listRefs| ==> l.listRefs[k].listId != l.id
  }

  /** The intended rule for a list: named, every reference valid on its own,
      no reference to itself, ordered timestamps. */
  predicate ValidList(itemIds: seq<int>, listIds: seq<int>, l: List) {
    && l.name != ""
    && (forall k :: 0 <= k < |l.listRefs| ==> ValidListRef(listIds, l.listRefs[k]))
    && (forall k :: 0 <= k < |l.itemRefs| ==> ValidItemRef(itemIds, l.itemRefs[k]))
    && NoSelfReference(l)
    && l.createdAt <= l.modifiedAt
  }

  /** assertValidList with the per-reference checks applied to each reference
      (the intended reading; see `AsWritten.CheckList` for the code as written). */
  function CheckList(itemIds: seq<int>, listIds: seq<int>, l: List): (o: Outcome)
    ensures o.Pass? <==> ValidList(itemIds, listIds, l)
    ensures o == Fail(SelfReference) ==> !NoSelfReference(l)
    ensures o.Fail? ==> o.error != RefsRejected
  {
    match CheckName(l.name)
    case Fail(e) => Fail(e)
    case Pass =>
      match FirstFailure(l.listRefs, r => CheckListRef(listIds, r))
      case Fail(e) => Fail(e)
      case Pass =>
        match FirstFailure(l.itemRefs, r => CheckItemRef(itemIds, r))
        case Fail(e) => Fail(e)
        case Pass =>
          if !NoSelfReference(l) then Fail(SelfReference)
          else CheckTimestamps(l.createdAt, l.modifiedAt)
  }
}
