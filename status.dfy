/** Outcomes of the adapter's lookups and writes.  A name or grid id that is
    not registered raises a lookup error in the system, and a source array
    that cannot be broadcast into the field raises a shape error; here both
    are returned as values instead of being excluded by a precondition. */
module Status {

  datatype Option<+T> = None | Some(value: T)

  /** Why a lookup or a write was refused. */
  datatype BmiError =
    | UnknownVariable(name: string)
    | UnknownGrid(id: int)
    | SizeMismatch(expected: nat, given: nat)

  datatype Result<+T> = Ok(value: T) | Err(error: BmiError)

  datatype Outcome = Pass | Fail(error: BmiError)
}
