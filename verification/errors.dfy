/** The application's error type. The French messages of the program are replaced by a
    `Reason` that says which rule was broken; field names and entity names are kept. */
module Errors {
  import opened Wrappers

  /** Which SQLite constraint a statement tripped over, or which column a row could not be
      read from. */
  datatype DbFailure =
    | CheckFailed
    | UniqueFailed
    | ForeignKeyFailed
    | IntegerOverflow
    | InvalidColumnType   // a stored value of a type the read does not accept
    | Busy                // SQLITE_BUSY: another connection holds the write lock

  /** The table whose row a `NotFound` is about. */
  datatype Entity =
    | FermeEntity
    | PersonnelEntity
    | SoinEntity
    | PoussinEntity
    | MaladieEntity
    | BandeEntity
    | BatimentEntity
    | SemaineEntity
    | SuiviEntity
    | AlimentationEntity
    | UserEntity

  /** Why an input was refused. */
  datatype Reason =
    | Missing       // the referenced row does not exist
    | Blank         // empty once whitespace is trimmed
    | TooShort
    | TooLong
    | Negative
    | NotPositive
    | Duplicate     // another row already holds the value
    | Invalid       // not one of the accepted values
    | Empty         // an empty list where at least one element is required
    | Mismatch      // a secret (registration code, password) does not match

  datatype AppError =
    | Database(failure: DbFailure)
    | Serialization
    | ConnectionPool
    | NotFound(entity: Entity, id: int)
    | ValidationError(field: string, reason: Reason)
    | ConstraintViolation(referencedBy: Entity)
    | BusinessLogic(field: string, reason: Reason)
    | Io

  /** The guard the services put in front of a lookup, update or delete by id: ids are positive. */
  function CheckId(id: int): (r: Option<AppError>)
    ensures r.None? <==> id > 0
    ensures r.Some? ==> r.value == ValidationError("id", NotPositive)
  {
    if id <= 0 then Some(ValidationError("id", NotPositive)) else None
  }
}
