/** Option and Result, and the failures the fixture layer reports to the test runner. */
module Outcomes {

  datatype Option<+T> = None | Some(value: T)

  /** Why an operation failed: one variant per exception class the library throws, plus
      the fatal error PHP raises when the `set_<field>`/`get_<field>` method does not exist. */
  datatype Failure =
    | MissingEntity(identifier: string)
    | MissingFactory(className: string)
    | UnexpectedEntity(entityType: string, identifier: string)
    | UndefinedMethod(field: string)

  datatype Result<+T> = Ok(value: T) | Err(error: Failure)
}
