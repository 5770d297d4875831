/** Failure-carrying values shared by the codec modules. */
module Results {

  /** An optional value; `None` also stands for a C null pointer. */
  datatype Option<+T> = None | Some(value: T)

  datatype Result<+T, +E> = Success(value: T) | Failure(error: E)

  /** What a C call of the codec leaves behind: the value it returns and the
      contents of its destination buffer (`None` when the caller passed a
      null destination), or `Undefined` when the call reaches C undefined
      behaviour, such as a read through a null pointer or past the end of a
      buffer. */
  datatype Call<T> = Returned(r: nat, buffer: Option<seq<T>>) | Undefined
}
