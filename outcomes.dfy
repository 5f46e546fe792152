/** Values that stand for Python's `None`, its exceptions and its `dict.get`. */
module Outcomes {

  /** A value or Python's `None`. */
  datatype Option<+T> = None | Some(value: T)

  /** The end of a Python computation: it returned a value, or it raised an
      exception that the caller does not catch. */
  datatype Outcome<+T> = Returned(value: T) | Raised

  /** A member of a decoded JSON object as `dict.get` sees it: the key is
      absent, its value is JSON null, or it holds a value. */
  datatype Field<+T> = Absent | Null | Present(value: T)
}
