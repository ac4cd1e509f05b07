/** The two outcome datatypes the Rust sources use throughout. */
module Wrappers {

  datatype Option<+T> = None | Some(value: T)

  datatype Result<+T, +E> = Ok(value: T) | Err(error: E) {
    predicate IsFailure() {
      Err?
    }

    function PropagateFailure<U>(): Result<U, E>
      requires Err?
    {
      Err(error)
    }

    function Extract(): T
      requires Ok?
    {
      value
    }
  }

  /** A successful result with more in front. */
  ghost function Prefixed<T, E>(prefix: seq<T>, r: Result<seq<T>, E>): Result<seq<T>, E> {
    match r
    case Err(e) => Err(e)
    case Ok(rest) => Ok(prefix + rest)
  }

  lemma PrefixedTwice<T, E>(s: seq<T>, t: seq<T>, r: Result<seq<T>, E>)
    ensures Prefixed(s, Prefixed(t, r)) == Prefixed(s + t, r)
    ensures Prefixed([], r) == r
  {
    if r.Ok? {
      assert s + (t + r.value) == (s + t) + r.value;
      assert [] + r.value == r.value;
    }
  }
}
