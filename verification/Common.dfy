/** Machine integers, bytes, result types and a fact about sequences, shared by the models. */
module Common {

  const U32_END: int := 0x1_0000_0000
  const U64_END: int := 0x1_0000_0000_0000_0000
  /** `isize::MAX`, the largest size of any object in a Rust address space. */
  const ISIZE_MAX: int := 0x7fff_ffff_ffff_ffff

  type u32 = x: int | 0 <= x < 0x1_0000_0000
  type u64 = x: int | 0 <= x < 0x1_0000_0000_0000_0000
  type byte = x: int | 0 <= x < 256

  datatype Option<+T> = None | Some(value: T)

  datatype Result<+T, +E> = Ok(value: T) | Err(error: E) {
    predicate IsFailure() {
      Err?
    }

    function PropagateFailure<U>(): (r: Result<U, E>)
      requires Err?
    {
      Err(error)
    }

    function Extract(): (r: T)
      requires Ok?
    {
      value
    }
  }

  function Min(a: int, b: int): (m: int) {
    if a <= b then a else b
  }

  lemma Assoc<T>(a: seq<T>, b: seq<T>, c: seq<T>)
    ensures a + b + c == a + (b + c)
  {
  }
}
