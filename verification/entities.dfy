/** The three entity types of the inventory tracker and the partial objects
    that `post*` and `patch*` receive (backend/types.d.ts). Timestamps are
    instants as natural numbers; ids the store assigns are natural numbers,
    while ids and counts that arrive inside a request payload are plain
    integers, so that the store's checks against negative values are part
    of the model. */
module Entities {
  import opened Results

  type Timestamp = nat

  /** A named tag attachable to items. */
  datatype Category = Category(id: nat, name: string, createdAt: Timestamp, modifiedAt: Timestamp)

  /** A named inventory unit, tagged with zero or more categories by id. */
  datatype Item = Item(
    id: nat,
    name: string,
    categoryIds: seq<int>,
    createdAt: Timestamp,
    modifiedAt: Timestamp)

  /** A quantity of an item inside a list. */
  datatype ItemRef = ItemRef(itemId: int, count: int, createdAt: Timestamp, modifiedAt: Timestamp)

  /** A quantity of another list inside a list. */
  datatype ListRef = ListRef(listId: int, count: int, createdAt: Timestamp, modifiedAt: Timestamp)

  /** A named aggregation of item and list references. */
  datatype List = List(
    id: nat,
    name: string,
    itemRefs: seq<ItemRef>,
    listRefs: seq<ListRef>,
    createdAt: Timestamp,
    modifiedAt: Timestamp)

  /** The fields a caller may supply when creating or patching; an absent
      field is `None`. The store ignores any id or timestamp in the payload. */
  datatype CategoryPartial = CategoryPartial(name: Option<string>)

  datatype ItemPartial = ItemPartial(name: Option<string>, categoryIds: Option<seq<int>>)

  datatype ListPartial = ListPartial(
    name: Option<string>,
    itemRefs: Option<seq<ItemRef>>,
    listRefs: Option<seq<ListRef>>)

  /** JavaScript truthiness of an optional string: present and non-empty.
      (An array is always truthy, so an optional sequence only needs `Some?`.) */
  predicate Truthy(name: Option<string>) {
    name.Some? && name.value != ""
  }

  function CategoryId(c: Category): int { c.id }

  function ItemId(it: Item): int { it.id }

  function ListId(l: List): int { l.id }
}
