/** Results of operations that may give nothing or fail. */
module Wrappers {
  datatype Option<T> = None | Some(value: T) {
    predicate IsFailure() {
      None?
    }

    function PropagateFailure<U>(): Option<U>
      requires None?
    {
      None
    }

    function Extract(): T
      requires Some?
    {
      value
    }
  }

  datatype Result<T, E> = Ok(value: T) | Err(error: E)

  // ---------------------------------------------------------------------------------------------
  // Lists gathered piece by piece, any piece of which may be missing.

  /** What is gathered before, then the rest. */
  function Before<T>(parts: seq<T>, rest: Option<seq<T>>): Option<seq<T>> {
    if rest.None? then None else Some(parts + rest.value)
  }

  lemma BeforeNothing<T>(rest: Option<seq<T>>)
    ensures Before([], rest) == rest
  {
    if rest.Some? { assert [] + rest.value == rest.value; }
  }

  lemma BeforeMore<T>(parts: seq<T>, more: seq<T>, rest: Option<seq<T>>)
    ensures Before(parts, Before(more, rest)) == Before(parts + more, rest)
  {
    if rest.Some? { assert parts + (more + rest.value) == parts + more + rest.value; }
  }

  lemma BeforeNone<T>(parts: seq<T>)
    ensures Before(parts, None) == None
  {
  }

  lemma BeforeEnd<T>(parts: seq<T>)
    ensures Before(parts, Some([])) == Some(parts)
  {
    assert parts + [] == parts;
  }
}
