/** Failure-compatible results shared by the models. */
module Wrappers {
  datatype Option<+T> = None | Some(value: T) {

    predicate IsFailure() {
      None?
    }

    function PropagateFailure<U>(): Option<U>
      requires None?
    {
      None
    }

    function Extract(): T
      requires Some?
    {
      value
    }
  }

  datatype Result<+T, +E> = Success(value: T) | Failure(error: E)

  // ----- sequences that may fail to exist

  function Prepend<T>(x: T, rest: Option<seq<T>>): Option<seq<T>> {
    if rest.None? then None else Some([x] + rest.value)
  }

  /** What has been produced, and then the rest. */
  function Behind<T>(out: seq<T>, rest: Option<seq<T>>): Option<seq<T>> {
    if rest.None? then None else Some(out + rest.value)
  }

  lemma BehindPrepend<T>(out: seq<T>, x: T, rest: Option<seq<T>>)
    ensures Behind(out, Prepend(x, rest)) == Behind(out + [x], rest)
  {
    if rest.Some? {
      assert out + ([x] + rest.value) == out + [x] + rest.value;
    }
  }

  lemma BehindNothing<T>(rest: Option<seq<T>>)
    ensures Behind([], rest) == rest
  {
    if rest.Some? {
      assert [] + rest.value == rest.value;
    }
  }

  lemma BehindEnd<T>(out: seq<T>)
    ensures Behind(out, Some([])) == Some(out)
  {
    assert out + [] == out;
  }

  // ----- sets

  lemma {:induction false} SubsetSize<T>(small: set<T>, large: set<T>)
    requires small <= large
    ensures |small| <= |large|
    decreases |small|
  {
    if x :| x in small {
      SubsetSize(small - {x}, large - {x});
    }
  }
}
