/** Shared result types. A Python exception raised inside the extraction code
    becomes an `Err` carrying the kind of fault; the caller's broad
    `try/except` turns any of them into an aborted scan. */
module Common {

  datatype Option<+T> = None | Some(value: T)

  /** The exceptions the modelled code can raise. */
  datatype Fault =
    | EmptyRow               // IndexError: `row_list[0]` on an empty row
    | NotAnInt(text: string) // ValueError: `int(...)` on text that is no integer literal
    | NotAFloat(text: string) // ValueError: `float(...)` on text that is no float literal
    | MissingKey(key: string) // KeyError: a dictionary lookup of an absent key

  datatype Result<+T> = Ok(value: T) | Err(fault: Fault)
}
