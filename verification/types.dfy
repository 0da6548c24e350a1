/** Small value types shared by the dictionary, the search cursor and the bulk loader. */
module Types {

  /** An optional value: what `get`, `get_mut` and `try_resolve` hand back. */
  datatype Option<T> = None | Some(value: T)

  /** The outcome of a step of partial search. */
  datatype Result<T, E> = Ok(value: T) | Err(error: E)

  /** The one error kind of the library: the key part just fed has no edge
      from the cursor's position, and the cursor has gone back to the root. */
  datatype InvalidKeyPartErr = InvalidKeyPartErr
}
