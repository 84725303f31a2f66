/** Shared vocabulary of the inventory API: identifiers, clock values, optional
    values and the typed outcome every route handler returns. */
module Common {

  /** Row identifiers. The service draws fresh ids from `createId()`; the model
      draws them from a counter (see `Db.Tables.nextId`). */
  type Id = nat

  /** A point in time as the store records it ("now" is always a parameter). */
  type Time = nat

  datatype Option<+T> = None | Some(value: T)

  /** The referenced entity a handler reports as missing or conflicting. */
  datatype Entity =
    | StorageRef
    | BlockRef
    | BoxRef
    | ProductRef
    | UserRef
    | SupervisorRef
    | CountryRefs
    | CategoryRef
    | SubCategoryRef

  /** Why a checkout is refused. */
  datatype StateReason =
    | AllCheckedOut      // nothing remains, or the box is already closed
    | MoreThanAvailable  // the request exceeds what remains

  /** The error responses of the route handlers. */
  datatype Failure =
    | NotFound(entity: Entity)            // "... does not exists", "Invalid countries"
    | Conflict(entity: Entity)            // "... with name already exists"
    | InvalidState(reason: StateReason)   // refused checkout
    | DuplicateSubCategoryNames           // "Each sub category should have unique name"
    | InvalidCursor                       // "Invalid cursor"
    | Internal                            // the request aborted; its transaction rolled back

  datatype Result<+T> = Ok(value: T) | Err(failure: Failure)
}
