/** Outcomes shared by every component: optional values, and values or a raised error. */
module Wrappers {

  datatype Option<+T> = None | Some(value: T)

  /** A returned value, or the class of the exception that was raised instead. */
  datatype Result<+T, +E> = Success(value: T) | Failure(error: E) {
    predicate IsFailure() { Failure? }

    function PropagateFailure<U>(): Result<U, E>
      requires Failure?
    {
      Failure(error)
    }

    function Extract(): T
      requires Success?
    {
      value
    }
  }

  /** A generator's behaviour: what it yielded, and the exception that ended it, if any. */
  datatype Run<+T, +E> = Run(items: seq<T>, error: Option<E>) {
    /** The same run with `xs` yielded before it. */
    function After(xs: seq<T>): Run<T, E> {
      Run(xs + items, error)
    }

    lemma AfterNothing()
      ensures After([]) == this
    {
      assert [] + items == items;
    }

    lemma AfterTwice(xs: seq<T>, ys: seq<T>)
      ensures After(ys).After(xs) == After(xs + ys)
    {
      assert xs + (ys + items) == (xs + ys) + items;
    }

    /** The run of a function that collects the items and returns them, or raises. */
    function Collect(): Result<seq<T>, E> {
      match error
      case None => Success(items)
      case Some(e) => Failure(e)
    }
  }

  function OptionToSeq<T>(o: Option<T>): seq<T> {
    match o
    case None => []
    case Some(x) => [x]
  }

  lemma Append<T>(xs: seq<T>, x: T, ys: seq<T>)
    ensures (xs + [x]) + ys == xs + ([x] + ys)
  {
  }
}
