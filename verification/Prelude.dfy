/** Option and Result as used throughout the model. Rust's `?` is Dafny's `:-`. */
module Prelude {

  datatype Option<+T> = None | Some(value: T)

  datatype Result<+T, +E> = Ok(value: T) | Err(error: E) {
    predicate IsFailure() {
      Err?
    }

    function PropagateFailure<U>(): Result<U, E>
      requires Err?
    {
      Err(error)
    }

    function Extract(): T
      requires Ok?
    {
      value
    }
  }

  /** Rust's i64. */
  const I64_MIN: int := -0x8000_0000_0000_0000
  const I64_MAX: int := 0x7fff_ffff_ffff_ffff

  type I64 = n: int | I64_MIN <= n <= I64_MAX

  /** `filter(|v| !v.is_empty())`: an empty value counts as absent. */
  function NonEmpty<T(==)>(v: Option<seq<T>>): Option<seq<T>> {
    if v == Some([]) then None else v
  }
}
