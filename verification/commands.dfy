/** A store driven by a sequence of calls, one at a time, as the single
    serialized caller of the store does. */
module Commands {
  import opened Entities
  import opened Db
  import opened CategoryOps
  import opened ItemOps
  import opened ListOps

  /** One mutating call of the store with its payload. Reads change nothing
      and are left out of traces. */
  datatype Command =
    | PostCategoryCall(category: CategoryPartial)
    | PatchCategoryCall(id: int, categoryPatch: CategoryPartial)
    | DeleteCategoryCall(id: int)
    | PostItemCall(item: ItemPartial)
    | PatchItemCall(id: int, itemPatch: ItemPartial)
    | DeleteItemCall(id: int)
    | PostListCall(list: ListPartial)
    | PatchListCall(id: int, listPatch: ListPartial)
    | DeleteListCall(id: int)

  /** A call together with the instant the clock reads while it runs. */
  datatype Call = Call(command: Command, now: Timestamp)

  /** The state after one call, whether it was accepted or rejected. */
  function Apply(s: Store, c: Call): Store {
    match c.command
    case PostCategoryCall(p) => PostCategory(s, p, c.now).store
    case PatchCategoryCall(id, p) => PatchCategory(s, id, p, c.now).store
    case DeleteCategoryCall(id) => DeleteCategory(s, id).store
    case PostItemCall(p) => PostItem(s, p, c.now).store
    case PatchItemCall(id, p) => PatchItem(s, id, p, c.now).store
    case DeleteItemCall(id) => DeleteItem(s, id).store
    case PostListCall(p) => PostList(s, p, c.now).store
    case PatchListCall(id, p) => PatchList(s, id, p, c.now).store
    case DeleteListCall(id) => DeleteList(s, id).store
  }

  /** The state after the calls, first to last. */
  function Run(s: Store, calls: seq<Call>): Store
    decreases |calls|
  {
    if |calls| == 0 then s else Run(Apply(s, calls[0]), calls[1..])
  }

  /** Every call, accepted or rejected, keeps the invariant and never lowers
      a counter. */
  lemma ApplyPreserves(s: Store, c: Call)
    requires Valid(s)
    ensures Valid(Apply(s, c)) && CountersGrow(s, Apply(s, c))
  {
    match c.command
    case PostCategoryCall(p) => PostCategoryPreserves(s, p, c.now);
    case PatchCategoryCall(id, p) => PatchCategoryPreserves(s, id, p, c.now);
    case DeleteCategoryCall(id) => DeleteCategoryPreserves(s, id);
    case PostItemCall(p) => PostItemPreserves(s, p, c.now);
    case PatchItemCall(id, p) => PatchItemPreserves(s, id, p, c.now);
    case DeleteItemCall(id) => DeleteItemPreserves(s, id);
    case PostListCall(p) => PostListPreserves(s, p, c.now);
    case PatchListCall(id, p) => PatchListPreserves(s, id, p, c.now);
    case DeleteListCall(id) => DeleteListPreserves(s, id);
  }

  /** Any sequence of calls keeps the invariant, and counters only grow, so
      an id is never issued twice in the store's lifetime. */
  lemma {:induction false} RunPreserves(s: Store, calls: seq<Call>)
    requires Valid(s)
    ensures Valid(Run(s, calls)) && CountersGrow(s, Run(s, calls))
    decreases |calls|
  {
    if |calls| > 0 {
      ApplyPreserves(s, calls[0]);
      RunPreserves(Apply(s, calls[0]), calls[1..]);
    }
  }

  /** Every state a new store can reach satisfies the invariant. */
  lemma ReachableValid(calls: seq<Call>)
    ensures Valid(Run(Empty(), calls))
  {
    RunPreserves(Empty(), calls);
  }
}
