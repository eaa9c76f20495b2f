/** Datatypes shared by every module of the model. */
module Common {

  type byte = x: nat | x < 256

  const U64: nat := 0x1_0000_0000_0000_0000

  /** How a call ends that the source lets panic. */
  datatype Call<+T> = Returned(value: T) | Panicked

  datatype Option<+T> = None | Some(value: T)

  /** The outcome of an operation that the source lets fail with an error value. */
  datatype Result<+T, +E> = Ok(value: T) | Err(error: E) {
    predicate IsFailure() { Err? }
    function PropagateFailure<U>(): Result<U, E> requires Err? { Err(error) }
    function Extract(): T requires Ok? { value }
  }

  lemma SubsetSize<T>(a: set<T>, b: set<T>)
    requires a <= b
    ensures |a| <= |b|
  {
    assert b == a + (b - a);
  }
}
