/** Optional values and results with an error. */
module Wrappers {
  datatype Option<+T> = None | Some(value: T)

  datatype Result<+T, +E> = Ok(value: T) | Err(error: E) {
    predicate IsFailure()
    {
      Err?
    }

    function PropagateFailure<U>(): Result<U, E>
      requires Err?
    {
      Err(error)
    }

    function Extract(): T
      requires Ok?
    {
      value
    }
  }

  // `ok_or`.
  function OkOr<T, E>(option: Option<T>, error: E): Result<T, E>
  {
    match option
    case None => Err(error)
    case Some(value) => Ok(value)
  }
}

/** Facts about sequences that loops over them use. */
module Sequences {
  lemma TakeNext<T>(xs: seq<T>, k: nat)
    requires k < |xs|
    ensures xs[..k + 1] == xs[..k] + [xs[k]]
  {
  }

  lemma DropNext<T>(xs: seq<T>, k: nat)
    requires k < |xs|
    ensures xs[k..] == [xs[k]] + xs[k + 1..]
    ensures xs[k..][0] == xs[k] && xs[k..][1..] == xs[k + 1..]
  {
  }

  lemma DropAll<T>(xs: seq<T>)
    ensures xs[|xs|..] == [] && xs[0..] == xs && xs[..|xs|] == xs && xs[..0] == []
  {
  }

  lemma Associate<T>(xs: seq<T>, ys: seq<T>, zs: seq<T>)
    ensures xs + ys + zs == xs + (ys + zs)
  {
  }

  lemma SplitSum<T>(xs: seq<T>, ys: seq<T>)
    ensures (xs + ys)[..|xs|] == xs && (xs + ys)[|xs|..] == ys
  {
  }

  lemma ConsFirst<T>(x: T, xs: seq<T>, ys: seq<T>)
    ensures ([x] + xs + ys)[0] == x && ([x] + xs + ys)[1..] == xs + ys
  {
  }
}
