/** Outcome types for the store: the JavaScript code signals a rejected input
    by a failed `assert` (an exception); here every such failure is a value. */
module Results {

  datatype Option<+T> = None | Some(value: T) {

    /** The value, or `default` when there is none (the `x || default` idiom). */
    function GetOr(default: T): T {
      match this
      case Some(v) => v
      case None => default
    }
  }

  /** Why an operation was rejected, one constructor per failing check. */
  datatype Error =
    | InvalidId                       // assertValidId: the id is below zero
    | InvalidCount                    // assertValidCount: the count is below one
    | EmptyName                       // assertNonEmptyString: missing or empty name
    | UnknownCategory(categoryId: int) // postItem: a categoryIds entry names no category
    | InvalidCategoryIds              // assertValidItem: negative or unknown category id
    | UnknownItem(itemId: int)        // assertValidItemRef: the ref names no item
    | UnknownList(listId: int)        // assertValidListRef: the ref names no list
    | SelfReference                   // assertValidList: a listRef names the list itself
    | BadTimestamps                   // assertValidCreatedAndModifiedAt: createdAt > modifiedAt
    | RefsRejected                    // assertValidList as written: `every` saw a falsy callback result

  /** The result of one validation: it passes, or fails with the first error found. */
  datatype Outcome = Pass | Fail(error: Error)

  datatype Result<+T> = Ok(value: T) | Err(error: Error)
}
