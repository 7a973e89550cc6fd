/** Shared wrappers: Python's `None`, and Python exceptions turned into values. */
module Common {

  datatype Option<+T> = None | Some(value: T)

  /** The exceptions the modelled code can raise, one constructor per kind. */
  datatype Error =
    | ZeroDivision               // `float(count_eq) / count_total` with an empty total
    | Conflict(subject: string)  // the one-to-one sanity check of a merge mapping
    | NotInList                  // `list.index` or `list.remove` of a missing element
    | MissingKey(key: string)    // `dict[key]` of a missing key
    | DuplicateColumn(name: string) // `DataFrame.insert` of a column that already exists
    | IndexOutOfRange            // `list[0]` of an empty list

  datatype Result<+T> = Ok(value: T) | Err(error: Error)
}
