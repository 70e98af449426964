/** Outcomes of the AVL-G tree's public operations: the source's `null` results and its
    two exception classes. */
module AvlgTypes {

  /** A key or the source's `null` ("not found"). */
  datatype Option<T> = None | Some(value: T)

  /** The two exceptions the tree throws. */
  datatype Error = InvalidBalance | EmptyTree

  /** Either a normal result or a thrown exception. */
  datatype Result<T> = Ok(value: T) | Err(error: Error)
}
