/** The Option and Result datatypes shared by the model's modules. */
module Results {

  /** An optional value: a nullable field or handle of the VM. */
  datatype Option<+T> = None | Some(value: T)

  /** Either the successful outcome of an operation or the reason it failed. */
  datatype Result<+T, +E> = Success(value: T) | Failure(error: E)
}
