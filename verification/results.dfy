/** Outcomes of the operations that can raise. */
module Results {
  datatype Option<T> = None | Some(value: T)

  /** Both are Python's IndexError: `EmptyDisjunction` when the list of disjuncts is empty
      and its element 0 is read, `MatrixTooSmall` when graphToBDD reads `graphG[i][j]`
      outside a matrix smaller than Domain x Domain. */
  datatype Error = EmptyDisjunction | MatrixTooSmall

  datatype Result<T> = Success(value: T) | Failure(error: Error)
}
