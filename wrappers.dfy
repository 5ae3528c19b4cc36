/** Small result types shared by the model. */
module Wrappers {

  datatype Option<+T> = None | Some(value: T)

  /** The exceptions the registry queries can let escape: `_fetch_remote_json`
      catches everything raised while fetching, but nothing guards the code that
      then inspects the decoded JSON. */
  datatype Exception = AttributeError | TypeError

  /** The outcome of a Python call: the value it returns, or the exception it raises. */
  datatype Outcome<+T> = Returned(value: T) | Raised(exc: Exception)
}
